# Interactive 3D sign: click dispatch and retrying assistant client

A model, in Dafny, of the decision logic of the interactive 3D signboard page
(`script/script.js`). The page shows a pole with four clickable signs and a
ground plane. Clicking one opens a pop-up near the pointer. The
"Ask About Features" sign's pop-up is an assistant that forwards questions to a
generative-text API, retrying with exponential backoff.

Two pieces are modelled:

- **The retrying client `callGeminiAPI`** (`gemini_client.dfy`). The network is
  an oracle: `replies[i]` is what the `i`-th `fetch` yields. It is a network
  error or a response with a status and a body, and the body may not be JSON.
  `Attempt` is one run of the `try` block. `Loop` / `CallGeminiApi` fold the
  attempts into a `Run`: the returned text or the thrown error, the number of
  requests, and the trace of sleep delays. `CallGeminiApiLoop` is the same `for`
  loop written statement by statement, and is proved to compute the fold.
- **The pop-up state machine** (`sign_modal.dfy`). It covers the `buildingInfo`
  table, `openModal`, `closeModal`, `onClick` after the raycast, the Escape key
  and `handleGeminiRequest`. The modal is an immutable record. The raycast
  result is a list of mesh names, nearest first. Whether a click landed inside
  the pop-up's content is a boolean input.

`js_values.dfy` holds the JavaScript semantics these rely on:
- values produced by `JSON.parse`;
- property and index reads through optional chaining (`obj[0]` on an object
  reads key `"0"`, `"str"[0]` is a one-character string);
- truthiness, so an empty string is not an answer;
- `String(value)` as `new Error(value)` and template literals apply it,
  including the TypeError it throws for an object whose own `toString` key
  holds a JSON value instead of a function;
- `String.prototype.trim` with ECMAScript's white-space set.

Behaviours of the code that are easy to misread:

- A non-ok status other than 429 or 5xx is not final. The comment
  `// Handle other errors (e.g., 400 Bad Request)` at script/script.js:166
  reads as if such errors ended the call. But
  `throw new Error(errorResult.error?.message || …)` sits inside the `try`, as
  does the "Invalid response structure" throw for an ok body without text. The
  `catch` therefore sleeps and retries both like network errors, and rethrows
  only on the third attempt (`RejectionIsRetried`).
- A 429 or 5xx on the third attempt still sleeps (4000 ms) before the loop ends
  and the "several retries" error is thrown (`AllTransientExhausts`).
- A `null` JSON body makes `result.candidates` or `errorResult.error` throw a
  TypeError. That error is caught and retried like the others.
- A click never re-targets a shown pop-up. A click on a shown pop-up only
  closes it, and only when the click is outside the content
  (`ShownModalKeepsContent`).

## Model

| member | source | states |
|---|---|---|
| JsValues.Get | script/script.js:154 | A named property read yields a value only on an object that has that key, and always does then. |
| JsValues.Index | script/script.js:154 | `[n]` yields an array's n-th element when it exists and nothing past the end. On a string it yields the one-character string at n, below the length only. On an object it reads the key spelled by n's digits. On null, booleans and numbers it is always undefined. |
| JsValues.Truthy | script/script.js:155 | JavaScript truthiness: `undefined`, `null`, `false`, `0` and `""` are falsy. Non-empty strings, arrays and objects are truthy. A boolean is truthy iff it is `true`, a number iff it is not 0. |
| JsValues.ToJsString | script/script.js:115 | `String(value)`: a string is itself, `null` is "null", booleans are "true"/"false", a number is its decimal rendering, and an empty array gives "". An object throws a TypeError exactly when it has its own `toString` key, and is "[object Object]" otherwise. A one-element array converts as its element does inside an array (`null` gives ""). |
| JsValues.OptGet | script/script.js:154 | `v?.[key]` short-circuits to undefined on `null` or `undefined`, and is the property read on any other value. |
| JsValues.OptIndex | script/script.js:154 | `v?.[n]` short-circuits to undefined on `null` or `undefined`, and is the index read on any other value. |
| JsValues.IntToString | script/script.js:169 | `String(n)` for an integer: the digits of a non-negative number, and a minus sign followed by the digits of -n for a negative one. |
| JsValues.SignedRoundTrip | script/script.js:169 | Reading the rendering of any integer, sign included, gives the integer back. |
| JsValues.ElementString | script/script.js:169 | An array element contributes the empty string when it is `null`, and its own `String` conversion otherwise. |
| JsValues.JoinElements | script/script.js:169 | Joining from the end gives the empty string. Joining from the last element gives that element's string alone, with no trailing comma. |
| JsValues.JoinShift | script/script.js:169 | Joining an array from position i is joining the array without its first element from position i-1. |
| JsValues.ArrayStringIsCommaJoined | script/script.js:169 | An array of two or more elements converts to its first element's string, a comma, and the string of the remaining elements. The conversion throws exactly when one of these throws. |
| JsValues.FirstNonSpace | script/script.js:106 | The first position at or after i that is not white space, with only white space skipped. |
| JsValues.EndNonSpace | script/script.js:106 | The position after the last non-white-space character before j, with only white space skipped. |
| JsValues.DecimalRoundTrip | script/script.js:169 | The decimal rendering `String(n)` uses for a numeric error message reads back as the same number. |
| JsValues.TrimStart | script/script.js:106 | The result is a suffix of the input. Only white space is removed, and the result does not start with white space. |
| JsValues.TrimEnd | script/script.js:106 | The result is a prefix of the input. Only white space is removed, and the result does not end with white space. |
| JsValues.Trim | script/script.js:106 | `trim()` is no longer than its input, is empty exactly when the input is all white space, and otherwise neither starts nor ends with white space. |
| JsValues.TrimIsMaximalSlice | script/script.js:106 | `trim()` returns a slice of the input with only white space cut off either side, and neither end of the result is white space. |
| JsValues.TrimEmptyIffAllWhitespace | script/script.js:106 | `!userQuery.trim()` holds exactly when the prompt is white space only, including the empty prompt. |
| GeminiClient.ReadMember | script/script.js:154 | A plain member access throws (TypeError) exactly on a `null` body. Otherwise it is the property read. |
| GeminiClient.IsOk | script/script.js:152 | `response.ok` (a 2xx status) is never a status the client backs off on. |
| GeminiClient.IsTransient | script/script.js:160 | Every 5xx status is backed off on. Among the 4xx statuses, only 429 is. No status below 400 is. |
| GeminiClient.CandidateText | script/script.js:154 | The optional chain throws only for a `null` body. A body without `candidates` yields undefined. Any body with t at `candidates[0].content.parts[0].text` yields t, whatever other keys, candidates or parts it has. |
| GeminiClient.CandidateTextExact | script/script.js:154 | On a body where neither `candidates` nor the first candidate's `content.parts` is an object (arrays, but also `null`, strings and numbers), the chain yields t exactly when t is at `candidates[0].content.parts[0].text`. Only an object there, read by key "0", breaks this. |
| GeminiClient.CandidateTextUndefined | script/script.js:154 | On such a non-null body the chain yields undefined exactly when no value sits at `candidates[0].content.parts[0].text`. |
| GeminiClient.MissingTextIsInvalid | script/script.js:154-158 | An ok, non-null body of that kind without a first part's text throws "Invalid response structure from API.", including `candidates: null` or a primitive, and `parts: null`. |
| GeminiClient.EmptyAnswersAreInvalid | script/script.js:154-158 | `{candidates:[]}`, a candidate with `parts:[]`, a candidate with only `finishReason:"SAFETY"`, `{candidates:null}`, `{candidates:"x"}` and a candidate with `parts:null` each throw the invalid-structure error on a 200 response. |
| GeminiClient.AnswerBodyText | script/script.js:154 | The minimal body `{candidates:[{content:{parts:[{text:t}]}}]}` holds t on that path, and the chain finds t. |
| GeminiClient.RejectionError | script/script.js:165-169 | A `null` error body throws a TypeError. Otherwise the error's message is `String(error.message)` when that is truthy, else "An unknown API error occurred." When `String` throws on a truthy message, that TypeError is thrown instead, and only then. |
| GeminiClient.Attempt | script/script.js:145-170 | One try block sleeps and falls through exactly for a non-ok 429/5xx status. It returns exactly for an ok response whose parsed body has truthy candidate text, and returns that text. Every other reply throws. |
| GeminiClient.AttemptErrors | script/script.js:145-170 | A network failure, a body that is not JSON wherever it is read, a `null` ok body, an ok body without truthy text and a rejected status each throw their own error. |
| GeminiClient.Loop | script/script.js:144-178 | From iteration i the loop makes at least one and at most all remaining requests. |
| GeminiClient.LoopStopsAtFirstReturn | script/script.js:152-156 | The loop stops at the first attempt that returns, and returns that attempt's text. No attempt before it returned. |
| GeminiClient.LoopOutcome | script/script.js:144-178 | The loop succeeds iff some remaining attempt returns. Otherwise it makes every request and fails with the last attempt's error, or "several retries" if the last attempt backed off. |
| GeminiClient.LoopSleepDelays | script/script.js:142-175 | The k-th sleep from an iteration is that iteration's delay doubled k times. |
| GeminiClient.LoopSleepCount | script/script.js:160-176 | One sleep per request, except after the request that returned or threw on the last iteration. |
| GeminiClient.CallGeminiApi | script/script.js:127-179 | At most 3 requests and at most 3 sleeps. The k-th sleep is 1000·2^k ms. The call returns the first returned text, with no earlier attempt returning. Otherwise the failure comes after 3 requests, with the error rethrown from the third attempt or the "several retries" error. |
| GeminiClient.CallGeminiApiLoop | script/script.js:140-178 | The `for`/`try`/`catch` loop, statement by statement, computes the same result, request count and sleep trace as the fold over the attempts, within 3 requests. |
| GeminiClient.AllTransientExhausts | script/script.js:160-178 | Three 429/5xx replies make 3 requests and sleep 1000, 2000 and 4000 ms. The call then fails with "Failed to get a response from the API after several retries." |
| GeminiClient.ThrowIsRetried | script/script.js:171-176 | An error thrown on the first or second attempt is followed by a sleep and another request. |
| GeminiClient.LastThrowRethrown | script/script.js:171-173 | When the first two attempts do not return and the third throws, that very error is thrown, after 3 requests and sleeps of 1000 and 2000 ms. |
| GeminiClient.RejectionIsRetried | script/script.js:165-176 | Three rejected (non-429 4xx) replies cost 3 requests and two sleeps. The third rejection's error is thrown. |
| GeminiClient.FirstAnswerReturned | script/script.js:152-156 | An ok first reply holding a truthy t at `candidates[0].content.parts[0].text` ends the call with t after one request and no sleep. Other content in the body does not matter. |
| SignModal.ClickableNamesHaveEntries | script/script.js:213-260 | Every mesh registered as clickable has a `buildingInfo` entry. |
| SignModal.SceneClickOpens | script/script.js:297-306 | A click on a hidden pop-up whose nearest hit is a clickable mesh always shows that mesh's title at (x+10, y). |
| SignModal.OpenModal | script/script.js:46-74 | An unknown id changes nothing. The assistant id shows the assistant panel with an empty prompt and the ready message, and leaves the static text alone. Another known id shows the static panel with its text and keeps the prompt and response. Both known cases set the title and show the modal at (x+10, y). |
| SignModal.CloseModal | script/script.js:76-87 | The modal ends hidden with the prompt and response cleared. Nothing else changes. |
| SignModal.OnClick | script/script.js:271-308 | On a shown modal, a click closes it exactly when outside the content and otherwise changes nothing. On a hidden modal, the click opens the nearest hit. An empty hit list changes nothing. Afterwards the modal is shown iff the nearest hit has an entry. |
| SignModal.OnKeyDown | script/script.js:91-93 | Escape closes the modal and any other key changes nothing. |
| SignModal.HandleGeminiRequest | script/script.js:104-120 | A white-space prompt makes no request and asks for a question. Otherwise the client runs once for the prompt. The response shows `String` of the text it returned. It shows the apology when the client threw, or when that conversion throws. Only the response changes. |
| SignModal.Step | script/script.js:89-102 | The listeners' dispatch: only a click can show a hidden pop-up, and only on a hit with an entry. Typing changes only the prompt. The close button and Escape leave the pop-up hidden. |
| SignModal.ShownModalKeepsContent | script/script.js:275-283 | No event changes a shown modal's title, text, panel or position. |
| SignModal.StepKeepsConsistent | script/script.js:46-120 | Every event keeps a shown modal showing one table entry consistently. |
| SignModal.ReplayKeepsConsistent | script/script.js:46-120 | For any sequence of events from a consistent state, a shown modal shows the title, panel and text of a single table entry. |

## Left out

- Scene construction, lights, geometry, `createSign`, camera controls, window
  resizing and the render loop are rendering-library calls. The raycast is
  float geometry, so its nearest-first hit list is an input.
- `fetch`, `response.json()`, `JSON.stringify(payload)`, the URL, the API key
  and the system prompt are network and foreign calls. They are replaced by the
  reply oracle. A body `json()` cannot parse is `Unparsable`. The query text
  does not influence the oracle.
- `GeminiClient.CallGeminiApi`: the reply sequence must cover three attempts.
  The network always yields some outcome, and at most three are consumed.
- `sleep` / `setTimeout` timing is not modelled. Sleeps are recorded as a trace
  of delays.
- `SignModal.CloseModal`: the 200 ms fade is taken as one step. In the page the
  modal still counts as shown to `onClick` during that window. Two quick
  closes queue two timers, and a late timer can hide a pop-up reopened in
  between. That race is not modelled.
- `SignModal.HandleGeminiRequest`: the `await` is taken as one step, so the
  "loading" spinner is not a state. A reply arriving after the pop-up was
  closed or re-targeted is not modelled.
- CSS classes, transforms, opacity, `innerHTML` rendering and escaping,
  `console` logging and listener registration are presentation and I/O.
- JSON numbers are integers. Fractional numbers, double rounding and
  exponent formatting in `String(number)` are not modelled.
- `JsValues.Get`: built-in properties are not modelled. This covers names of
  inherited `Object.prototype` properties (`toString`, `constructor`, ...),
  a string's or array's own `length`, and the methods of `String.prototype`
  and `Array.prototype`. `Get` reads all of these as `undefined`. No
  clickable mesh is named after one. The client reads only `candidates`,
  `content`, `parts`, `text`, `error` and `message`, none of which is such a
  property.
- `SignModal.OnClick`: pointer coordinates are integers. `clientX` and
  `clientY` of a click event are doubles and may be fractional. The model
  uses `int` for the click position and the pop-up's `left`/`top`, so
  `x + 10` is exact integer addition.
- `SignModal.OpenModal`: `buildingInfo[partId]` also finds inherited names
  (`constructor`, `toString`, `__proto__`). In the page these are truthy and
  open a pop-up with undefined title and text. The model's table lookup finds
  them absent and changes nothing. No clickable mesh is named after one.
- Dafny strings are sequences of Unicode scalar values, while JavaScript
  strings are UTF-16 code units. `JsValues.Index` on a string outside the
  Basic Multilingual Plane (an emoji, say) yields the whole character instead
  of one surrogate half. Lone surrogates cannot be represented. Nothing the
  client reads observes the difference.
