/**
 * The retrying generative-text client `callGeminiAPI`. The network is an oracle:
 * `replies[i]` is what the `i`-th request yields. The client returns the text of
 * the first usable answer, or the error it ends up throwing, together with the
 * number of requests it made and the delays it slept between them.
 */
module GeminiClient {
  import opened Wrappers
  import opened JsValues

  /** The number of attempts (`retries`). */
  const Retries: nat := 3
  /** The delay before the first retry, in milliseconds. */
  const InitialDelay: nat := 1000

  const InvalidStructureMessage: string := "Invalid response structure from API."
  const UnknownErrorMessage: string := "An unknown API error occurred."
  const ExhaustedMessage: string := "Failed to get a response from the API after several retries."

  /** The body of an HTTP response, as `response.json()` sees it. */
  datatype Body = Unparsable | Parsed(json: Json)

  /** What one `fetch` yields: a rejected promise, or a response. */
  datatype Reply = NetworkError | Response(status: int, body: Body)

  /** What the client can throw. */
  datatype Thrown =
    | FetchRejected            // the promise `fetch` returned rejected
    | BodyNotJson              // `response.json()` rejected: the body is not JSON
    | ReadOfNull               // a TypeError from reading a property of a `null` body
    | ApiError(message: string) // `new Error(message)`
    | NotConvertible           // a TypeError from `String(value)` on an object with its own `toString` key,
                               // or on an array holding one at any depth

  /** How the body of the `try` block ends for one reply. */
  datatype Step =
    | Returned(text: Json)     // `return text`
    | Backoff                  // slept, doubled the delay, fell through to the next iteration
    | Threw(error: Thrown)     // an exception reached the `catch`

  /** Everything one call of the client does. */
  datatype Run = Run(result: Result<Json, Thrown>, calls: nat, sleeps: seq<nat>)

  /** `response.ok`: a 2xx status. An ok status is never one the client backs off on. */
  predicate IsOk(status: int)
    ensures IsOk(status) ==> !IsTransient(status)
  {
    200 <= status <= 299
  }

  /**
   * The statuses the client treats as rate limiting or a server fault: 429 and
   * every 5xx are; no other client error (4xx) is.
   */
  predicate IsTransient(status: int)
    ensures status < 400 ==> !IsTransient(status)
    ensures status >= 500 ==> IsTransient(status)
    ensures 400 <= status < 500 ==> (IsTransient(status) <==> status == 429)
  {
    status == 429 || status >= 500
  }

  /** `2^k`. */
  function Pow2(k: nat): nat
  {
    if k == 0 then 1 else 2 * Pow2(k - 1)
  }

  /** `body[key]` with a plain member access: reading a property of `null` throws. */
  function ReadMember(body: Json, key: string): (r: Result<Option<Json>, Thrown>)
    ensures r.Failure? <==> body.JNull?
    ensures r.Failure? ==> r.error == ReadOfNull
    ensures r.Success? ==> r.value == Get(body, key)
  {
    if body.JNull? then Failure(ReadOfNull) else Success(Get(body, key))
  }

  /**
   * The body holds `t` at `candidates[0].content.parts[0].text`, whatever else
   * it holds: other keys, further candidates or further parts.
   */
  predicate HasFirstPartText(result: Json, t: Json) {
    var candidates := Get(result, "candidates");
    candidates.Some? && candidates.value.JArr? && |candidates.value.elems| > 0 &&
    var content := Get(candidates.value.elems[0], "content");
    content.Some? &&
    var parts := Get(content.value, "parts");
    parts.Some? && parts.value.JArr? && |parts.value.elems| > 0 &&
    Get(parts.value.elems[0], "text") == Some(t)
  }

  /**
   * `result.candidates?.[0]?.content?.parts?.[0]?.text` on the parsed body:
   * `Success(None)` when the chain yields `undefined`; only the first member
   * access is plain, so only a `null` body throws.
   */
  function CandidateText(result: Json): (r: Result<Option<Json>, Thrown>)
    ensures r.Failure? <==> result.JNull?
    ensures r.Failure? ==> r.error == ReadOfNull
    ensures !result.JNull? && Get(result, "candidates").None? ==> r == Success(None)
    ensures forall t :: HasFirstPartText(result, t) ==> r == Success(Some(t))
  {
    match ReadMember(result, "candidates")
    case Failure(e) => Failure(e)
    case Success(candidates) =>
      Success(OptGet(OptIndex(OptGet(OptGet(OptIndex(candidates, 0), "content"), "parts"), 0), "text"))
  }

  /**
   * Neither `candidates` nor the first candidate's `content.parts` is an
   * object. `[0]` on an object reads the key "0", so only such a body can yield
   * a text that is not at a first part; arrays, as the API sends them, and the
   * malformed `null`, strings, numbers and booleans all qualify.
   */
  predicate IndexedByPosition(result: Json) {
    var candidates := Get(result, "candidates");
    candidates.Some? ==>
      !candidates.value.JObj? &&
      (candidates.value.JArr? && |candidates.value.elems| > 0 ==>
         var parts := OptGet(Get(candidates.value.elems[0], "content"), "parts");
         parts.Some? ==> !parts.value.JObj?)
  }

  /**
   * On a body indexed by position the chain yields `t` exactly when `t` is the first
   * part's text, and `undefined` exactly when there is no first part's text.
   */
  lemma {:induction false} CandidateTextExact(result: Json, t: Json)
    requires IndexedByPosition(result)
    ensures CandidateText(result) == Success(Some(t)) <==> HasFirstPartText(result, t)
  {
  }

  /** On a non-null body indexed by position the chain yields `undefined` exactly when there is no first part's text. */
  lemma {:induction false} CandidateTextUndefined(result: Json)
    requires IndexedByPosition(result) && !result.JNull?
    ensures CandidateText(result) == Success(None) <==> forall u :: !HasFirstPartText(result, u)
  {
    var r := CandidateText(result);
    if r.Success? && r.value.Some? {
      CandidateTextExact(result, r.value.value);
    }
  }

  /** The well-formed answer `{candidates: [{content: {parts: [{text: t}]}}]}`. */
  function AnswerBody(t: Json): Json {
    JObj(map["candidates" := JArr([JObj(map["content" := JObj(map["parts" := JArr([JObj(map["text" := t])])])])])])
  }

  /** The minimal well-formed answer holds its text where the client looks for it. */
  lemma AnswerBodyText(t: Json)
    ensures HasFirstPartText(AnswerBody(t), t)
    ensures CandidateText(AnswerBody(t)) == Success(Some(t))
  {
  }

  /**
   * The error thrown for a response that is neither ok nor transient:
   * `new Error(errorResult.error?.message || "An unknown API error occurred.")`;
   * the constructor converts a truthy message with `String`, which can throw.
   */
  function RejectionError(errorResult: Json): (r: Thrown)
    ensures errorResult.JNull? <==> r == ReadOfNull
    ensures !errorResult.JNull? ==> r.ApiError? || r.NotConvertible?
    ensures var message := OptGet(Get(errorResult, "error"), "message");
            Truthy(message) && ToJsString(message.value).Some? ==> r == ApiError(ToJsString(message.value).value)
    ensures var message := OptGet(Get(errorResult, "error"), "message");
            r.NotConvertible? <==> Truthy(message) && ToJsString(message.value).None?
    ensures var message := OptGet(Get(errorResult, "error"), "message");
            !errorResult.JNull? && !Truthy(message) ==> r == ApiError(UnknownErrorMessage)
  {
    match ReadMember(errorResult, "error")
    case Failure(e) => e
    case Success(error) =>
      var message := OptGet(error, "message");
      if !Truthy(message) then ApiError(UnknownErrorMessage)
      else
        match ToJsString(message.value)
        case None => NotConvertible
        case Some(text) => ApiError(text)
  }

  /**
   * The body of the `try` block for one reply: it sleeps and falls through
   * exactly for a transient status, and returns exactly the truthy text of an
   * ok response; every other reply throws.
   */
  function Attempt(reply: Reply): (s: Step)
    ensures s.Backoff? <==> reply.Response? && !IsOk(reply.status) && IsTransient(reply.status)
    ensures s.Returned? <==> && reply.Response? && IsOk(reply.status) && reply.body.Parsed?
                             && CandidateText(reply.body.json).Success?
                             && Truthy(CandidateText(reply.body.json).value)
    ensures s.Returned? ==> CandidateText(reply.body.json) == Success(Some(s.text))
  {
    match reply
    case NetworkError => Threw(FetchRejected)
    case Response(status, body) =>
      if IsOk(status) then
        match body
        case Unparsable => Threw(BodyNotJson)
        case Parsed(result) =>
          match CandidateText(result)
          case Failure(e) => Threw(e)
          case Success(text) =>
            if Truthy(text) then Returned(text.value) else Threw(ApiError(InvalidStructureMessage))
      else if IsTransient(status) then
        Backoff
      else
        match body
        case Unparsable => Threw(BodyNotJson)
        case Parsed(errorResult) => Threw(RejectionError(errorResult))
  }

  /**
   * What one attempt throws: a network failure, a body that is not JSON
   * (whenever the body is read), a `null` ok body, an ok body without truthy
   * text, or the rejection error of a status that is neither ok nor transient.
   */
  lemma AttemptErrors(reply: Reply)
    ensures reply.NetworkError? ==> Attempt(reply) == Threw(FetchRejected)
    ensures (reply.Response? && reply.body.Unparsable? && (IsOk(reply.status) || !IsTransient(reply.status)))
            ==> Attempt(reply) == Threw(BodyNotJson)
    ensures (reply.Response? && IsOk(reply.status) && reply.body == Parsed(JNull))
            ==> Attempt(reply) == Threw(ReadOfNull)
    ensures (&& reply.Response? && IsOk(reply.status) && reply.body.Parsed? && !reply.body.json.JNull?
             && !Truthy(CandidateText(reply.body.json).value))
            ==> Attempt(reply) == Threw(ApiError(InvalidStructureMessage))
    ensures (reply.Response? && !IsOk(reply.status) && !IsTransient(reply.status) && reply.body.Parsed?)
            ==> Attempt(reply) == Threw(RejectionError(reply.body.json))
  {
  }

  /**
   * An ok answer indexed by position and without a first part's text throws
   * the invalid-structure error: no candidates, a candidate without parts, a
   * candidate blocked for safety and so without content, or a `null` or
   * primitive where an array belongs.
   */
  lemma {:induction false} MissingTextIsInvalid(status: int, body: Json)
    requires IsOk(status) && IndexedByPosition(body) && !body.JNull?
    requires forall u :: !HasFirstPartText(body, u)
    ensures Attempt(Response(status, Parsed(body))) == Threw(ApiError(InvalidStructureMessage))
  {
    CandidateTextUndefined(body);
  }

  /** Shapes of an answer without text, each on a 200 response. */
  lemma EmptyAnswersAreInvalid()
    ensures Attempt(Response(200, Parsed(JObj(map["candidates" := JArr([])]))))
            == Threw(ApiError(InvalidStructureMessage))
    ensures Attempt(Response(200, Parsed(JObj(map["candidates" := JArr([JObj(map["content" := JObj(map["parts" := JArr([])])])])]))))
            == Threw(ApiError(InvalidStructureMessage))
    ensures Attempt(Response(200, Parsed(JObj(map["candidates" := JArr([JObj(map["finishReason" := JStr("SAFETY")])])]))))
            == Threw(ApiError(InvalidStructureMessage))
    ensures Attempt(Response(200, Parsed(JObj(map["candidates" := JNull])))) == Threw(ApiError(InvalidStructureMessage))
    ensures Attempt(Response(200, Parsed(JObj(map["candidates" := JStr("x")])))) == Threw(ApiError(InvalidStructureMessage))
    ensures Attempt(Response(200, Parsed(JObj(map["candidates" := JArr([JObj(map["content" := JObj(map["parts" := JNull])])])]))))
            == Threw(ApiError(InvalidStructureMessage))
  {
  }

  /** The error a failed call ends with, given how its last attempt ended. */
  function FinalError(last: Step): Thrown {
    if last.Threw? then last.error else ApiError(ExhaustedMessage)
  }

  /** `run` with `sleeps` slept before it. */
  function AfterSleeps(sleeps: seq<nat>, run: Run): Run {
    run.(sleeps := sleeps + run.sleeps)
  }

  /** How each of the possible attempts would end, one per reply. */
  function Attempts(replies: seq<Reply>): (steps: seq<Step>)
    requires Retries <= |replies|
    ensures |steps| == Retries
    ensures forall j :: 0 <= j < Retries ==> steps[j] == Attempt(replies[j])
  {
    seq(Retries, j requires 0 <= j < Retries => Attempt(replies[j]))
  }

  /**
   * The loop from iteration `i`, with `delay` the current backoff delay and
   * `steps[j]` how the `try` block of iteration `j` ends. A transient status
   * sleeps and moves on, even on the last iteration; a thrown error is rethrown
   * on the last iteration and otherwise slept on and retried; running out of
   * iterations throws the "several retries" error.
   */
  function Loop(steps: seq<Step>, i: nat, delay: nat): (run: Run)
    requires i <= Retries <= |steps|
    ensures i <= run.calls <= Retries
    ensures i < Retries ==> i < run.calls
    decreases Retries - i
  {
    if i == Retries then
      Run(Failure(ApiError(ExhaustedMessage)), i, [])
    else
      match steps[i]
      case Returned(text) => Run(Success(text), i + 1, [])
      case Backoff => AfterSleeps([delay], Loop(steps, i + 1, delay * 2))
      case Threw(e) =>
        if i == Retries - 1 then Run(Failure(e), i + 1, [])
        else AfterSleeps([delay], Loop(steps, i + 1, delay * 2))
  }

  /**
   * The loop from iteration `i` stops at the first attempt that returns, and
   * only there: every attempt before it was made and did not return.
   */
  lemma {:induction false} LoopStopsAtFirstReturn(steps: seq<Step>, i: nat, delay: nat)
    requires i < Retries <= |steps|
    ensures var run := Loop(steps, i, delay);
            && (forall j :: i <= j < run.calls - 1 ==> !steps[j].Returned?)
            && (run.result.Success? ==> steps[run.calls - 1] == Returned(run.result.value))
    decreases Retries - i
  {
    if !steps[i].Returned? && i < Retries - 1 {
      LoopStopsAtFirstReturn(steps, i + 1, delay * 2);
    }
  }

  /**
   * The loop from iteration `i` succeeds exactly when some remaining attempt
   * returns; otherwise it makes every request and fails with the error of the
   * last attempt, or the "several retries" error when that attempt backed off.
   */
  lemma {:induction false} LoopOutcome(steps: seq<Step>, i: nat, delay: nat)
    requires i < Retries <= |steps|
    ensures var run := Loop(steps, i, delay);
            && (run.result.Success? <==> exists j :: i <= j < Retries && steps[j].Returned?)
            && (run.result.Failure? ==> run.calls == Retries && run.result.error == FinalError(steps[Retries - 1]))
    decreases Retries - i
  {
    if !steps[i].Returned? && i < Retries - 1 {
      LoopOutcome(steps, i + 1, delay * 2);
    }
  }

  /** Every sleep doubles the one before: the k-th sleep from iteration `i` lasts `delay * 2^k`. */
  lemma {:induction false} LoopSleepDelays(steps: seq<Step>, i: nat, delay: nat)
    requires i <= Retries <= |steps|
    ensures var run := Loop(steps, i, delay);
            forall k :: 0 <= k < |run.sleeps| ==> run.sleeps[k] == delay * Pow2(k)
    decreases Retries - i
  {
    var run := Loop(steps, i, delay);
    if i < Retries && |run.sleeps| > 0 {
      LoopSleepDelays(steps, i + 1, delay * 2);
      var rest := Loop(steps, i + 1, delay * 2);
      assert run.sleeps == [delay] + rest.sleeps;
      forall k | 1 <= k < |run.sleeps|
        ensures run.sleeps[k] == delay * Pow2(k)
      {
        assert run.sleeps[k] == rest.sleeps[k - 1] == (delay * 2) * Pow2(k - 1);
      }
    }
  }

  /**
   * The loop from iteration `i` sleeps once per attempt it makes, except after
   * an attempt that returns or that throws on the last iteration.
   */
  lemma {:induction false} LoopSleepCount(steps: seq<Step>, i: nat, delay: nat)
    requires i < Retries <= |steps|
    ensures var run := Loop(steps, i, delay);
            |run.sleeps| == run.calls - i - (if steps[run.calls - 1].Backoff? then 0 else 1)
    decreases Retries - i
  {
    if i < Retries - 1 && !steps[i].Returned? {
      LoopSleepCount(steps, i + 1, delay * 2);
    }
  }

  /**
   * `callGeminiAPI(userQuery)`: at most three requests; the result is the text of
   * the first attempt that returns, if any; otherwise the error of a last attempt
   * that threw, or the "several retries" error when the last attempt backed off.
   * The k-th sleep lasts 1000 * 2^k milliseconds (k from 0), and there is one
   * sleep per request except after the request that ended the call by returning
   * or throwing.
   */
  function CallGeminiApi(replies: seq<Reply>): (run: Run)
    requires Retries <= |replies|
    ensures 1 <= run.calls <= Retries
    ensures |run.sleeps| <= Retries
    ensures forall j :: 0 <= j < run.calls - 1 ==> !Attempt(replies[j]).Returned?
    ensures run.result.Success? <==> exists j :: 0 <= j < Retries && Attempt(replies[j]).Returned?
    ensures run.result.Success? ==> Attempt(replies[run.calls - 1]) == Returned(run.result.value)
    ensures run.result.Failure? ==> run.calls == Retries
                                    && run.result.error == FinalError(Attempt(replies[Retries - 1]))
    ensures |run.sleeps| == run.calls - (if Attempt(replies[run.calls - 1]).Backoff? then 0 else 1)
    ensures forall k :: 0 <= k < |run.sleeps| ==> run.sleeps[k] == InitialDelay * Pow2(k)
  {
    var steps := Attempts(replies);
    LoopStopsAtFirstReturn(steps, 0, InitialDelay);
    LoopOutcome(steps, 0, InitialDelay);
    LoopSleepCount(steps, 0, InitialDelay);
    LoopSleepDelays(steps, 0, InitialDelay);
    Loop(steps, 0, InitialDelay)
  }

  /** One iteration of the loop, by how its `try` block ends. */
  lemma LoopUnfolds(steps: seq<Step>, i: nat, delay: nat)
    requires i < Retries <= |steps|
    ensures steps[i].Returned? ==> Loop(steps, i, delay) == Run(Success(steps[i].text), i + 1, [])
    ensures steps[i].Threw? && i == Retries - 1 ==> Loop(steps, i, delay) == Run(Failure(steps[i].error), i + 1, [])
    ensures steps[i].Backoff? || (steps[i].Threw? && i < Retries - 1) ==>
              Loop(steps, i, delay) == AfterSleeps([delay], Loop(steps, i + 1, delay * 2))
  {
  }

  /** Sleeping `delay` after the sleeps so far and then running the next iteration. */
  lemma SleepThenLoop(steps: seq<Step>, i: nat, delay: nat, sleeps: seq<nat>)
    requires i < Retries <= |steps|
    ensures AfterSleeps(sleeps + [delay], Loop(steps, i + 1, delay * 2))
            == AfterSleeps(sleeps, AfterSleeps([delay], Loop(steps, i + 1, delay * 2)))
  {
  }

  /**
   * The `for` loop of `callGeminiAPI` statement by statement: `calls` counts the
   * `fetch` calls, `sleeps` records every `await sleep(delay)`. It computes the
   * fold `Loop` over the attempts, which is what `CallGeminiApi` returns.
   */
  method CallGeminiApiLoop(replies: seq<Reply>) returns (result: Result<Json, Thrown>, calls: nat, sleeps: seq<nat>)
    requires Retries <= |replies|
    ensures Run(result, calls, sleeps) == Loop(Attempts(replies), 0, InitialDelay)
    ensures calls <= Retries
  {
    ghost var steps := Attempts(replies);
    var retries := Retries;
    var delay := InitialDelay;
    calls, sleeps := 0, [];
    var i := 0;
    while i < retries
      invariant i <= retries == Retries
      invariant calls == i
      invariant AfterSleeps(sleeps, Loop(steps, i, delay)) == Loop(steps, 0, InitialDelay)
      decreases retries - i
    {
      calls := calls + 1;
      var step := Attempt(replies[i]);
      assert step == steps[i];
      LoopUnfolds(steps, i, delay);
      match step {
        case Returned(text) =>
          result := Success(text);
          return;
        case Backoff =>
          SleepThenLoop(steps, i, delay, sleeps);
          sleeps := sleeps + [delay];
          delay := delay * 2;
        case Threw(e) =>
          if i == retries - 1 {
            result := Failure(e);
            return;
          }
          SleepThenLoop(steps, i, delay, sleeps);
          sleeps := sleeps + [delay];
          delay := delay * 2;
      }
      i := i + 1;
    }
    result := Failure(ApiError(ExhaustedMessage));
  }

  /** Three transient statuses: three requests, three sleeps (the last one too), then the "several retries" error. */
  lemma AllTransientExhausts(replies: seq<Reply>)
    requires Retries <= |replies|
    requires forall j :: 0 <= j < Retries ==> replies[j].Response? && !IsOk(replies[j].status) && IsTransient(replies[j].status)
    ensures CallGeminiApi(replies) == Run(Failure(ApiError(ExhaustedMessage)), 3, [1000, 2000, 4000])
  {
    assert Attempt(replies[0]).Backoff? && Attempt(replies[1]).Backoff? && Attempt(replies[2]).Backoff?;
  }

  /**
   * An attempt that throws before the last one is followed by a sleep and
   * another request, whatever was thrown.
   */
  lemma ThrowIsRetried(replies: seq<Reply>, j: nat)
    requires Retries <= |replies|
    requires j < Retries - 1 && j < CallGeminiApi(replies).calls
    requires Attempt(replies[j]).Threw?
    ensures j + 1 < CallGeminiApi(replies).calls
    ensures j < |CallGeminiApi(replies).sleeps|
  {
  }

  /**
   * When no earlier attempt returns and the last one throws, the call throws
   * that very error, after three requests and two sleeps.
   */
  lemma LastThrowRethrown(replies: seq<Reply>, e: Thrown)
    requires Retries <= |replies|
    requires !Attempt(replies[0]).Returned? && !Attempt(replies[1]).Returned?
    requires Attempt(replies[2]) == Threw(e)
    ensures CallGeminiApi(replies).result == Failure(e)
    ensures CallGeminiApi(replies).calls == 3
    ensures CallGeminiApi(replies).sleeps == [1000, 2000]
  {
    var run := CallGeminiApi(replies);
    assert run.sleeps[0] == 1000 && run.sleeps[1] == 2000;
  }

  /**
   * A rejected request (a status that is neither ok, 429 nor 5xx) is not final:
   * its error is thrown inside the `try`, so three rejections cost three
   * requests and two sleeps before the last rejection's error surfaces.
   */
  lemma RejectionIsRetried(replies: seq<Reply>)
    requires Retries <= |replies|
    requires forall j :: 0 <= j < Retries ==> replies[j].Response? && !IsOk(replies[j].status)
                                               && !IsTransient(replies[j].status) && replies[j].body.Parsed?
    ensures CallGeminiApi(replies).calls == 3
    ensures CallGeminiApi(replies).sleeps == [1000, 2000]
    ensures CallGeminiApi(replies).result == Failure(RejectionError(replies[2].body.json))
  {
    assert Attempt(replies[0]).Threw? && Attempt(replies[1]).Threw?;
    LastThrowRethrown(replies, RejectionError(replies[2].body.json));
  }

  /**
   * A first reply that is ok and holds a truthy text at
   * `candidates[0].content.parts[0].text` ends the call at once with that text.
   */
  lemma FirstAnswerReturned(replies: seq<Reply>, t: Json)
    requires Retries <= |replies|
    requires replies[0].Response? && IsOk(replies[0].status) && replies[0].body.Parsed?
    requires HasFirstPartText(replies[0].body.json, t)
    requires Truthy(Some(t))
    ensures CallGeminiApi(replies) == Run(Success(t), 1, [])
  {
  }
}
