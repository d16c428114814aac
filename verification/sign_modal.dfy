/**
 * The sign page's pop-up: the information table, opening and closing the modal,
 * the click dispatch after a raycast, the Escape key, and the assistant's
 * question submission. The modal is an immutable record; each handler is a
 * transition from one record to the next.
 */
module SignModal {
  import opened Wrappers
  import opened JsValues
  import GeminiClient

  /** One row of the information table. */
  datatype Entry = Entry(title: string, info: string)

  /** The id of the sign whose pop-up is the question assistant. */
  const AssistantId: string := "sign_features"

  /** `buildingInfo`: the pop-up title and text for each clickable mesh name. */
  const BuildingInfo: map<string, Entry> := map[
    "sign_welcome" := Entry("Welcome!",
      "This is an interactive 3D sign. Click any of the signs to learn more about different topics. Use your mouse to rotate."),
    AssistantId := Entry("\U{2728} Ask About Features",
      "This is now an interactive assistant. Ask a question!"),
    "sign_about" := Entry("About Us",
      "We are a company dedicated to building innovative 3D web experiences. We were founded in 2024."),
    "sign_contact" := Entry("Contact Info",
      "You can reach us at info@example.com or by calling 555-1234. Our offices are open 9-5, M-F."),
    "ground" := Entry("Ground Plane",
      "This is the base of our scene. It helps anchor the 3D object in space.")
  ]

  /** The names given to the meshes registered as clickable when the scene is built. */
  const ClickableNames: seq<string> := ["ground", "sign_welcome", "sign_features", "sign_about", "sign_contact"]

  /** Every mesh a click can hit has a table entry. */
  lemma ClickableNamesHaveEntries()
    ensures forall k :: 0 <= k < |ClickableNames| ==> ClickableNames[k] in BuildingInfo
  {
  }

  /**
   * In the built scene the nearest hit is always a clickable mesh, so a click
   * on a hidden modal that hits anything shows that mesh's entry.
   */
  lemma SceneClickOpens(s: Modal, hits: seq<string>, insideContent: bool, x: int, y: int)
    requires !s.visible && |hits| > 0 && hits[0] in ClickableNames
    ensures var r := OnClick(s, hits, insideContent, x, y);
            r.visible && r.title == BuildingInfo[hits[0]].title && r.left == x + 10 && r.top == y
  {
    ClickableNamesHaveEntries();
  }

  /** Which of the two content containers is shown. */
  datatype Panel = StaticInfo | Assistant

  /** What the assistant's response container displays. */
  datatype ResponseView =
    | Cleared                 // empty, as `closeModal` leaves it
    | ReadyToAnswer           // "I am ready to answer your questions!"
    | AskForQuestion          // "Please enter a question."
    | Answer(text: string)    // the client's text, rendered with `String(...)`
    | Apology                 // "Sorry, I encountered an error. Please try again."

  /**
   * The pop-up: whether it is shown (no `invisible` class), which container is
   * shown, the title and static text, the prompt field, the response container,
   * and its position (`left`, `top` in pixels).
   */
  datatype Modal = Modal(
    visible: bool,
    panel: Panel,
    title: string,
    info: string,
    prompt: string,
    response: ResponseView,
    left: int,
    top: int)

  /**
   * `openModal(partId, x, y)`. An id without a table entry changes nothing.
   * Otherwise the title is the entry's, the assistant id shows the assistant
   * with an empty prompt and the "ready" message, any other id shows the
   * static container with the entry's text, and the modal appears at
   * (x + 10, y).
   */
  function OpenModal(s: Modal, id: string, x: int, y: int): (r: Modal)
    ensures id !in BuildingInfo ==> r == s
    ensures id in BuildingInfo ==> && r.visible && r.title == BuildingInfo[id].title
                                   && r.left == x + 10 && r.top == y
    ensures id == AssistantId ==> && r.panel == Assistant && r.prompt == "" && r.response == ReadyToAnswer
                                  && r.info == s.info
    ensures id in BuildingInfo && id != AssistantId ==>
              && r.panel == StaticInfo && r.info == BuildingInfo[id].info
              && r.prompt == s.prompt && r.response == s.response
  {
    if id !in BuildingInfo then s
    else
      var entry := BuildingInfo[id];
      var filled :=
        if id == AssistantId then s.(title := entry.title, panel := Assistant, response := ReadyToAnswer, prompt := "")
        else s.(title := entry.title, panel := StaticInfo, info := entry.info);
      filled.(left := x + 10, top := y, visible := true)
  }

  /**
   * `closeModal()`, its 200 ms fade taken as one step: the modal ends hidden with
   * the prompt and the response cleared; title, text, panel and position stay.
   */
  function CloseModal(s: Modal): (r: Modal)
    ensures !r.visible && r.prompt == "" && r.response == Cleared
    ensures r.(visible := s.visible, prompt := s.prompt, response := s.response) == s
  {
    s.(visible := false, prompt := "", response := Cleared)
  }

  /**
   * `onClick(event)`: `hits` are the names of the meshes under the pointer,
   * nearest first; `insideContent` is whether the click landed in the modal's
   * content. A shown modal is never re-targeted: the click closes it when it
   * lands outside the content and is ignored otherwise. A hidden modal opens on
   * the nearest hit, and nothing happens when nothing was hit.
   */
  function OnClick(s: Modal, hits: seq<string>, insideContent: bool, x: int, y: int): (r: Modal)
    ensures s.visible && insideContent ==> r == s
    ensures s.visible && !insideContent ==> r == CloseModal(s)
    ensures s.visible ==> (r.visible <==> insideContent)
    ensures !s.visible && |hits| == 0 ==> r == s
    ensures !s.visible && |hits| > 0 ==> r == OpenModal(s, hits[0], x, y)
    ensures !s.visible ==> (r.visible <==> |hits| > 0 && hits[0] in BuildingInfo)
  {
    if s.visible then
      if !insideContent then CloseModal(s) else s
    else if |hits| > 0 then
      OpenModal(s, hits[0], x, y)
    else
      s
  }

  /** The document's `keydown` listener: Escape closes the modal, any other key does nothing. */
  function OnKeyDown(s: Modal, key: string): (r: Modal)
    ensures key == "Escape" ==> r == CloseModal(s)
    ensures key != "Escape" ==> r == s
  {
    if key == "Escape" then CloseModal(s) else s
  }

  /** The modal after a question was submitted, and what the client did for it. */
  datatype Submission = Submission(modal: Modal, calls: nat, sleeps: seq<nat>)

  /**
   * `handleGeminiRequest()`, the `await` taken as one step, with `replies` the
   * network's answers. A prompt of white space only asks for a question and
   * makes no request. Otherwise the client is called with the prompt and the
   * response shows the text it returned, or an apology when it threw or when
   * the text cannot be converted to a string. Nothing but the response changes.
   */
  function HandleGeminiRequest(s: Modal, replies: seq<GeminiClient.Reply>): (r: Submission)
    requires GeminiClient.Retries <= |replies|
    ensures r.modal == s.(response := r.modal.response)
    ensures AllWhitespace(s.prompt) ==> r.calls == 0 && r.sleeps == [] && r.modal.response == AskForQuestion
    ensures !AllWhitespace(s.prompt) ==>
              var run := GeminiClient.CallGeminiApi(replies);
              && r.calls == run.calls && r.sleeps == run.sleeps
              && (run.result.Success? && ToJsString(run.result.value).Some? ==>
                    r.modal.response == Answer(ToJsString(run.result.value).value))
              && (run.result.Failure? || ToJsString(run.result.value).None? ==> r.modal.response == Apology)
  {
    TrimEmptyIffAllWhitespace(s.prompt);
    if Trim(s.prompt) == "" then
      Submission(s.(response := AskForQuestion), 0, [])
    else
      var run := GeminiClient.CallGeminiApi(replies);
      var view := match run.result
        case Success(text) =>
          (match ToJsString(text)
           case Some(shown) => Answer(shown)
           case None => Apology)
        case Failure(_) => Apology;
      Submission(s.(response := view), run.calls, run.sleeps)
  }

  /** What the user can do on the page. */
  datatype Event =
    | Click(hits: seq<string>, insideContent: bool, x: int, y: int)
    | KeyDown(key: string)
    | CloseButton
    | TypePrompt(text: string)
    | Submit(replies: seq<GeminiClient.Reply>)

  /** The network oracle of every submission covers all the attempts the client may make. */
  predicate WellFormedEvent(e: Event) {
    e.Submit? ==> GeminiClient.Retries <= |e.replies|
  }

  /**
   * The modal after one event, as the page's listeners dispatch it: window
   * clicks to `onClick`, keydown to the Escape handler, the close button to
   * `closeModal`, the send button to `handleGeminiRequest`. Only a click can
   * show a hidden modal, and typing changes nothing but the prompt.
   */
  function Step(s: Modal, e: Event): (r: Modal)
    requires WellFormedEvent(e)
    ensures !s.visible && r.visible ==> e.Click? && |e.hits| > 0 && e.hits[0] in BuildingInfo
    ensures e.TypePrompt? ==> r == s.(prompt := e.text)
    ensures e.CloseButton? || (e.KeyDown? && e.key == "Escape") ==> !r.visible
  {
    match e
    case Click(hits, inside, x, y) => OnClick(s, hits, inside, x, y)
    case KeyDown(key) => OnKeyDown(s, key)
    case CloseButton => CloseModal(s)
    case TypePrompt(text) => s.(prompt := text)
    case Submit(replies) => HandleGeminiRequest(s, replies).modal
  }

  /** The modal after a sequence of events. */
  function Replay(s: Modal, events: seq<Event>): Modal
    requires forall k :: 0 <= k < |events| ==> WellFormedEvent(events[k])
    decreases |events|
  {
    if |events| == 0 then s else Replay(Step(s, events[0]), events[1..])
  }

  /**
   * No event re-targets a shown modal: its title, text, panel and position
   * change only after it has been hidden.
   */
  lemma ShownModalKeepsContent(s: Modal, e: Event)
    requires WellFormedEvent(e) && s.visible
    ensures var r := Step(s, e);
            r.title == s.title && r.info == s.info && r.panel == s.panel && r.left == s.left && r.top == s.top
  {
  }

  /**
   * The modal shows the entry of table row `id`: its title, the assistant exactly
   * for the assistant id, and the entry's text on the static container.
   */
  predicate ShowsEntry(s: Modal, id: string) {
    && id in BuildingInfo
    && s.title == BuildingInfo[id].title
    && (s.panel == Assistant <==> id == AssistantId)
    && (s.panel == StaticInfo ==> s.info == BuildingInfo[id].info)
  }

  /** A shown modal displays some table entry consistently. */
  predicate Consistent(s: Modal) {
    s.visible ==> exists id :: id in BuildingInfo && ShowsEntry(s, id)
  }

  /** Every event keeps the modal consistent. */
  lemma StepKeepsConsistent(s: Modal, e: Event)
    requires WellFormedEvent(e) && Consistent(s)
    ensures Consistent(Step(s, e))
  {
    var r := Step(s, e);
    if r.visible && !s.visible {
      assert e.Click? && |e.hits| > 0;
      assert ShowsEntry(r, e.hits[0]);
    } else if r.visible {
      var id :| id in BuildingInfo && ShowsEntry(s, id);
      ShownModalKeepsContent(s, e);
      assert ShowsEntry(r, id);
    }
  }

  /**
   * From any consistent modal, hidden or shown, whatever the user does, a shown
   * modal always displays one table entry: the title, container and text never
   * mix two entries.
   */
  lemma {:induction false} ReplayKeepsConsistent(s: Modal, events: seq<Event>)
    requires forall k :: 0 <= k < |events| ==> WellFormedEvent(events[k])
    requires Consistent(s)
    ensures Consistent(Replay(s, events))
    decreases |events|
  {
    if |events| > 0 {
      StepKeepsConsistent(s, events[0]);
      ReplayKeepsConsistent(Step(s, events[0]), events[1..]);
    }
  }
}
