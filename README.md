# subsirl: live subtitles, modelled in Dafny

The app turns speech into subtitles in two stages. Each utterance goes first to a speech
recogniser and then to a language model that translates it. Each page keeps the
translations in one growing subtitle buffer. The core is made of four pieces:

- **The main page (`app/page.tsx`).** It keeps a FIFO delivery queue of `{id, promise}`
  entries and a counter that supplies the ids. `enqueueTranscription` pushes one entry per
  utterance. `processQueue` awaits the promise at the head and appends that entry's
  translation. It then shifts the head off and calls itself again.
- **The subtitles page (`app/subsirl/page.tsx`).** It runs a two-stage pipeline for each
  utterance. `getTranscribe` posts the audio to `/api/subsirl`. For a transcript that is
  not blank, it awaits `getTranslation`, which posts the text to `/api/scribe` and
  appends the translation.
- **`/api/subsirl` (`app/api/subsirl/route.ts`).** `POST` validates the form and parses the
  language config. `getTranscript` asks the Whisper model for a transcript and trims it;
  a blank or failed result becomes `null`.
- **`/api/scribe` (`app/api/scribe/route.ts`).** `POST` validates the form.
  `translateText` sends one streamed chat completion request with a fixed Hindi-to-English
  prompt. It folds the streamed fragments into one string, writing a space before each
  fragment, and returns `""` on any error.

Both pages render the buffer through the same chain of four `replaceAll` calls.

Module layout, one file per module:

| module | file | contents |
|---|---|---|
| `Optional` | `optional.dfy` | `Option` |
| `JsString` | `js_string.dfy` | `trim`, with ECMAScript's exact whitespace set; `replaceAll` with a string pattern; `toLowerCase` |
| `Http` | `http.dfy` | responses, with the one JSON member the pages read; the client-side reading of a reply |
| `Lang` | `lang.dfy` | the language pair a page captures |
| `Subtitles` | `subtitles.dfy` | the guarded append; the display chain |
| `DeliveryQueue` | `delivery_queue.dfy` | the main page's queue, as class `TranslationQueue` |
| `ScribeRoute` | `scribe_route.dfy` | the translation route |
| `SubsirlRoute` | `subsirl_route.dfy` | the transcription route |
| `UtterancePipeline` | `utterance_pipeline.dfy` | the subtitles page's per-utterance pipeline, with both routes in the loop |

The queue's state lives in mutable refs and a React state, so `TranslationQueue` is a class
whose methods update its fields:

| method | what it models |
|---|---|
| `Enqueue` | `enqueueTranscription`, which takes `nextId.current++` as the id and pushes at the back |
| `Settle` | a queued promise settling; the runtime delivers this event at any time and in any order |
| `CompleteTranscription` | the main page's `getTranscribe` finishing: its own append, then resolving to `undefined` |
| `DrainStep` | one activation of `processQueue` |
| `Drain` | the recursive self-call from `finally`, written as a loop |

A ghost field `removed` records the ids that `shift` took off the front. The class
invariant `Numbered` relates `removed`, the queued ids and the counter.

Everything the code does not compute itself is a parameter of the model:

| input | where it comes from |
|---|---|
| `FormRead` | the outcome of `formData()` and the zod schema |
| `Option<LangConfig>` | the outcome of `JSON.parse` |
| `Recognition` | the Whisper call |
| `Completion` | the chat completion stream |
| `FieldReply` | `fetch` and `response.json()` |

## Model

| member | source | states |
|---|---|---|
| JsString.Trim | app/api/subsirl/route.ts:49 | `trim` gives a contiguous piece `s[k..k+|r|]` of the input with only whitespace before and after it and no whitespace at either of its own ends; it is empty exactly when every character of the input is whitespace |
| JsString.TrimIdempotent | app/subsirl/page.tsx:105 | trimming twice gives what trimming once gives; a string is blank exactly when its trim is empty, so the page's `transcript.trim()` test on an already trimmed transcript is the route's own blank test |
| JsString.ReplaceAll | app/page.tsx:360-363 | `replaceAll` with a non-empty string pattern scans left to right with non-overlapping matches; a replacement no longer than the pattern never makes the text longer |
| JsString.ReplaceAllNoMatch | app/page.tsx:360-363 | where the pattern does not occur, `replaceAll` returns its input unchanged |
| JsString.ReplaceAllKeepsAbsent | app/page.tsx:361-363 | a character that is in neither the input nor the replacement is not in the output |
| JsString.ReplaceAllDeletes | app/page.tsx:360 | replacing a single character by `""` removes every occurrence of it |
| JsString.NoSpaceBeforeIsNotContains | app/page.tsx:362 | "no space is directly followed by `e`" holds exactly when the two-character pattern `' ' e` does not occur |
| JsString.ReplacePairNoSpaceBefore | app/page.tsx:362-363 | replacing `' ' c` by a character that is neither a space nor `e` leaves no space before `e`, when `e` is `c` itself or the input had no space before `e` |
| JsString.ToLowerCase | app/api/subsirl/route.ts:46 | lower-casing keeps the length, leaves no ASCII capital, keeps every other character, and maps each capital to the letter 32 code points above it |
| Http.ReadField | app/subsirl/page.tsx:100-105 | a reply is `NotOk` exactly when the status is outside 200..299; the page gets a string member exactly for an ok JSON body with that key, and then gets its value |
| Subtitles.AppendSubtitle | app/subsirl/page.tsx:132-133 | the buffer only grows; it is unchanged exactly when the text is blank; otherwise it gains one space followed by the text, untrimmed |
| Subtitles.ApplyReply | app/subsirl/page.tsx:113-138 | a reply changes the buffer exactly when it carries a string member that is not blank, and then appends a space and that string; every failure leaves the buffer as it was |
| Subtitles.DisplayHasNoQuote | app/page.tsx:359-363 | no double quote survives the display chain |
| Subtitles.DisplayNotLonger | app/page.tsx:359-363 | the displayed text is never longer than the buffer |
| Subtitles.DisplayNoSpaceComma | app/subsirl/page.tsx:156-160 | after the chain, no space is directly followed by a comma |
| Subtitles.DisplayUnchanged | app/subsirl/page.tsx:156-160 | a buffer with no `"`, `" ."`, `" ,"` or `" ?"` is displayed exactly as stored |
| DeliveryQueue.SettledPrefix | app/page.tsx:157-170 | the number of entries the drainer can process: every entry in the front run has settled, and the run ends at a pending entry or at the end of the queue |
| DeliveryQueue.SettledPrefixUnique | app/page.tsx:157-170 | any settled front run that stops at a pending entry or at the end of the queue is exactly that longest run |
| DeliveryQueue.NumberedIsCounterHistory | app/page.tsx:178-180 | under the queue invariant, the removed ids followed by the queued ids are exactly `0 .. nextId - 1`; ids are unique and increase in enqueue order, and every removed id is below every queued id |
| DeliveryQueue.HeadEffect | app/page.tsx:160-168 | processing a settled head only ever appends; it changes the buffer exactly when the promise fulfilled with a string `translation` that is not blank, and then appends a space and that string; a rejection or a missing member leaves the buffer alone |
| DeliveryQueue.EffectsAppendInQueueOrder | app/page.tsx:157-172 | draining settled entries appends their texts in queue order, one entry after the other, and changes nothing already in the buffer |
| DeliveryQueue.UndefinedResultsAppendNothing | app/page.tsx:126-155 | `getTranscribe` resolves to `undefined` for every entry, and on such entries the drainer appends nothing |
| DeliveryQueue.TranscriptionRouteGivesNoTranslation | app/page.tsx:146-148 | whatever `/api/subsirl` answers, reading its `translation` member appends nothing to the main page's buffer |
| DeliveryQueue.IntendedDeliveryInOrder | app/page.tsx:157-172 | if each promise resolved to its reply, draining would apply the replies in enqueue order |
| DeliveryQueue.TranslationQueue.constructor | app/page.tsx:28-31 | the queue starts empty, the counter at 0, the buffer at `""`, and the invariant holds |
| DeliveryQueue.TranslationQueue.Enqueue | app/page.tsx:174-181 | the new id is the counter's old value; the counter grows by one; a pending entry is pushed at the back; nothing else changes, and the invariant is kept |
| DeliveryQueue.TranslationQueue.Settle | app/page.tsx:179 | only the pending entry with that id changes, and it takes the settlement; the order, the ids, the counter and the buffer stay as they were |
| DeliveryQueue.TranslationQueue.CompleteTranscription | app/page.tsx:134-154 | the buffer takes the reply's guarded append in completion order, and the entry settles as `undefined` |
| DeliveryQueue.TranslationQueue.DrainStep | app/page.tsx:157-171 | a step shifts exactly when the head has settled; if so, it applies the head's effect and records its id as removed; if not, nothing changes |
| DeliveryQueue.TranslationQueue.Drain | app/page.tsx:157-172 | the drainer processes exactly the longest settled front run, in order, and removes it; the queue is left empty or with a pending head; the buffer is the run's effects applied in queue order |
| DeliveryQueue.TwoDrainedInOrder | app/page.tsx:162-164 | two settled entries reach the buffer front first |
| DeliveryQueue.OutOfOrderSettlement | app/page.tsx:174-182 | when the second utterance settles first, the first drain delivers nothing; the second drain delivers both, in spoken order |
| ScribeRoute.SpacedLength | app/api/scribe/route.ts:54-57 | every chunk adds exactly one space, missing content included, so the result's length is the chunk count plus the fragments' lengths |
| ScribeRoute.SpacedAppend | app/api/scribe/route.ts:54-57 | the fold distributes over concatenation of streams: each chunk contributes `" " + fragment` on its own |
| ScribeRoute.SpacedFirst | app/api/scribe/route.ts:56 | the first fragment also gets a leading space |
| ScribeRoute.HelloWorldFold | app/api/scribe/route.ts:54-57 | fragments `"Hello"` and `"world"` fold to `" Hello world"` |
| ScribeRoute.HelloWorldStored | app/subsirl/page.tsx:132-133 | the page appends `" Hello world"` after its own space, so the buffer stores two leading spaces |
| ScribeRoute.FragmentBoundariesShowInResult | app/api/scribe/route.ts:56 | `"Hel"` then `"lo"` does not fold to what `"Hello"` folds to |
| ScribeRoute.TranslateText | app/api/scribe/route.ts:35-63 | the loop's result is the fold of a stream that ended, and `""` when `create` or the stream fails; it sends exactly the translation request for the text |
| ScribeRoute.PromptRoundTrip | app/api/scribe/route.ts:41-43 | reading the quoted text back out of the prompt gives exactly the text; only the prompt for a text reads back as that text |
| ScribeRoute.PromptStatesLanguagesAndInstruction | app/api/scribe/route.ts:41-43 | the prompt contains "Hindi", "English" and the reply-only instruction, whatever the text |
| ScribeRoute.TranslationRequest | app/api/scribe/route.ts:37-52 | the request is one streamed user message whose quoted text is the input |
| ScribeRoute.Post | app/api/scribe/route.ts:12-33 | the status is 405, 500, 400 or 200; each is stated as an if-and-only-if on the method and the form outcome; a 200 carries `translateText`'s result; the model is called exactly on a 200, with the form's text |
| SubsirlRoute.Recognise | app/api/subsirl/route.ts:49-52 | a recogniser failure gives `null`; a recognised text gives its trim, or `null` exactly when it is blank; a value it gives is never empty and has no whitespace at either end |
| SubsirlRoute.GetTranscript | app/api/subsirl/route.ts:38-53 | text input passes through untrimmed without a call; a file with a missing symbol gives `null` without a call; otherwise exactly one `whisper-large-v3` call at temperature 0.1 with the lower-cased symbol, and the answer is what `Recognise` makes of the recogniser's result |
| SubsirlRoute.Post | app/api/subsirl/route.ts:14-36 | 405 for another method; 500 when `formData` or `JSON.parse` throws; 400 "Invalid request" exactly on a schema failure; 400 "Invalid audio" exactly for a `null` or empty transcript; otherwise 200 with the transcript |
| UtterancePipeline.GetTranscribe | app/subsirl/page.tsx:86-111 | the transcription request comes first; a translation request follows exactly when the reply holds a non-blank transcript, and carries it with the captured language pair; otherwise the buffer is unchanged |
| UtterancePipeline.UnrecognisedSpeechIsNeverTranslated | app/subsirl/page.tsx:100-107 | speech the recogniser fails on, or hears as blank, makes one request and adds nothing |
| UtterancePipeline.RecognisedTranscriptReply | app/api/subsirl/route.ts:25-28 | a recognised, non-blank transcript reaches the page trimmed, in a 200 answer |
| UtterancePipeline.TranslationReplyCarriesTranslation | app/api/scribe/route.ts:20-25 | a parsed translation request always reaches the page as a 200 carrying `translateText`'s result |
| UtterancePipeline.TranscriptAccepted | app/subsirl/page.tsx:105-106 | a non-blank transcript is followed by its translation request, and the translation is appended |
| UtterancePipeline.RecognisedSpeechIsTranslated | app/subsirl/page.tsx:86-138 | recognised speech makes exactly two requests, the second with the trimmed transcript and the same language pair; the buffer takes the guarded append of the translation |
| UtterancePipeline.FailedTranslationAddsNothing | app/api/scribe/route.ts:59-62 | when the model call fails, both requests are made but nothing is appended |

Four behaviours of the code a reader may not expect:

- **Fragment boundaries.** The fold writes a space before every fragment, so where the
  stream splits a word shows up in the result (`FragmentBoundariesShowInResult`).
- **Leading spaces are kept.** Nothing trims the translation before it is appended, so the
  buffer stores them (`HelloWorldStored`); the `<p>` that shows the buffer collapses them.
- **The commas.** The display chain turns `" ,"` into `"."`, not into `","`.
- **The language pair.** The translation route never reads the language pair the page
  sends, so the prompt always asks for Hindi to English.

## Left out

- Voice activity detection (`useMicVAD` and its thresholds), WAV encoding, the camera, scrolling, styling and the language picker are not modelled. They are browser and UI collaborators.
- `types/lang.ts` and `types/common.ts` are not part of this model. `Lang.LangObj` keeps only the `symbol` member the core reads.
- The network, `fetch`, zod, `formData()`, `JSON.parse` and the Groq SDK are inputs to the model, not code in it.
- JSON bodies are modelled as one string member. That is all the routes produce and all the pages read.
- Only one drainer runs at a time. `enqueueTranscription` calls `processQueue` while another activation may be suspended at `await`; two activations on the same head would apply it and shift twice. The model keeps to a single sequential drainer, and real promise interleaving is reduced to `Settle` events.
- `enqueueTranscription` calling `processQueue` (app/page.tsx:182) is the caller invoking `Drain` after `Enqueue`; `Enqueue` itself never drains.
- SubsirlRoute.ConfigOf: assumes `JSON.parse(JSON.stringify(languageSelected))` gives back the `fromLanguage.symbol` that was serialised; JSON itself is not modelled.
- The `loading` flag, `console.time` and `console.error` are not modelled. They do not affect the subtitles.
- JsString.ToLowerCase: does not model Unicode case mapping; only ASCII letters are lowered, which covers language symbols such as `HI`.
- JsString.ReplaceAll: does not model an empty pattern, nor the `$` patterns (`$&`, `$1`, …) a string replacement may contain; every call site uses a literal non-empty pattern and a replacement (`""`, `"."`, `"?"`) with no `$` in it.
- Strings are sequences of code points, not UTF-16 code units. Lengths of text with characters above U+FFFF differ from JavaScript's.
- The zod schemas' own rules, such as how an empty text field is judged, are left to the `FormRead` input.

## Findings

| source | as written | input that shows it | evidently intended | confidence | as-written member | corrected member |
|---|---|---|---|---|---|---|
| app/page.tsx:146-148 | the main page's `getTranscribe` reads `result.translation` from `/api/subsirl`, which answers `{ transcript }`; the append never runs, the promise resolves to `undefined`, and `processQueue` then throws on `undefined.translation` and appends nothing | any utterance: a 200 answer `{ transcript: "namaste" }` leaves the buffer `""` | `getTranscribe` resolves to its reply, and `processQueue` appends the replies in enqueue order | not executed; high | DeliveryQueue.TranscriptionRouteGivesNoTranslation | DeliveryQueue.IntendedDeliveryInOrder |
