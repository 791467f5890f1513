/** The `App` component's state and its event handlers, run one event at a
    time. The asynchronous generate handler is split at its `await` into a
    start and a completion; the copy handler is split at its timer into the
    click and the delayed clear. */
module PromptGallery {
  import opened Catalog
  import opened CopyFeedback

  datatype View = Gallery | Generator

  datatype Option<T> = None | Some(value: T)

  /** What the call to the generation service ended with: the response's
      text, or an exception. */
  datatype Outcome = Response(text: string) | Failure

  /** The one request the generate handler sends. */
  datatype Request = Request(model: string, contents: string)

  const Model: string := "gemini-2.5-flash"
  const FailureMessage: string := "Sorry, something went wrong. Please check the console for details."

  class App {
    var view: View
    var selectedPrompt: Option<Prompt>
    var activeCategory: string
    var isLoading: bool
    var generatedContent: string
    var copyStatus: Status

    /** What every handler keeps: the generator view always has a prompt,
        and while a request is in flight no output is shown. */
    ghost predicate Valid()
      reads this
    {
      (view == Generator <==> selectedPrompt.Some?) &&
      (isLoading ==> generatedContent == "")
    }

    /** The initial state of the component. */
    constructor ()
      ensures Valid()
      ensures view == Gallery && selectedPrompt == None && activeCategory == AllCategory
      ensures !isLoading && generatedContent == "" && copyStatus == map[]
    {
      view := Gallery;
      selectedPrompt := None;
      activeCategory := AllCategory;
      isLoading := false;
      generatedContent := "";
      copyStatus := map[];
    }

    /** The render guard: the generator screen needs both the generator view
        and a selected prompt; in a valid state the view alone decides. */
    function ShowsGenerator(): (b: bool)
      reads this
      ensures b ==> view == Generator && selectedPrompt.Some?
      ensures Valid() ==> (b <==> view == Generator)
    {
      view == Generator && selectedPrompt.Some?
    }

    /** The cards the gallery screen shows for the active category. */
    function ShownPrompts(): (r: seq<Prompt>)
      reads this
      ensures activeCategory == AllCategory ==> r == Prompts
      ensures activeCategory != AllCategory ==>
        forall p :: p in r <==> p in Prompts && p.category == activeCategory
      ensures IsSubsequence(r, Prompts)
    {
      WithCategoryIsSubsequence(Prompts, activeCategory);
      SubsequenceOfItself(Prompts);
      FilteredPrompts(Prompts, activeCategory)
    }

    /** The text of the copy button on the card of `p`. */
    function CopyButtonLabel(p: Prompt): (shown: string)
      reads this
      ensures p.id !in copyStatus || copyStatus[p.id] == "" ==> shown == DefaultLabel
      ensures p.id in copyStatus && copyStatus[p.id] != "" ==> shown == copyStatus[p.id]
      ensures shown != ""
    {
      CopyLabel(copyStatus, p.id)
    }

    /** A category button: makes `c` the active category. */
    method SelectCategory(c: string)
      requires Valid()
      modifies this
      ensures Valid()
      ensures activeCategory == c
      ensures view == old(view) && selectedPrompt == old(selectedPrompt)
      ensures isLoading == old(isLoading) && generatedContent == old(generatedContent)
      ensures copyStatus == old(copyStatus)
    {
      activeCategory := c;
    }

    /** "Use Prompt": opens the generator screen for `p` with no output. */
    method UsePrompt(p: Prompt)
      requires Valid()
      modifies this
      ensures Valid()
      ensures selectedPrompt == Some(p) && generatedContent == "" && view == Generator
      ensures activeCategory == old(activeCategory) && isLoading == old(isLoading)
      ensures copyStatus == old(copyStatus)
    {
      selectedPrompt := Some(p);
      generatedContent := "";
      view := Generator;
    }

    /** "Back to Gallery": returns to the gallery and drops the selection;
        the last output is kept. */
    method BackToGallery()
      requires Valid()
      modifies this
      ensures Valid()
      ensures view == Gallery && selectedPrompt == None
      ensures generatedContent == old(generatedContent) && isLoading == old(isLoading)
      ensures activeCategory == old(activeCategory) && copyStatus == old(copyStatus)
    {
      view := Gallery;
      selectedPrompt := None;
    }

    /** The generate handler up to its `await`. Without a selected prompt it
        does nothing; otherwise it shows the loading state, clears the output
        and returns the request to send. The button is disabled while
        loading, so no second start happens during a request. */
    method StartGenerate() returns (request: Option<Request>)
      requires Valid()
      requires !isLoading
      modifies this
      ensures Valid()
      ensures old(selectedPrompt) == None ==>
        request == None && !isLoading && generatedContent == old(generatedContent)
      ensures old(selectedPrompt) != None ==>
        request == Some(Request(Model, old(selectedPrompt).value.text)) && isLoading && generatedContent == ""
      ensures view == old(view) && selectedPrompt == old(selectedPrompt)
      ensures activeCategory == old(activeCategory) && copyStatus == old(copyStatus)
    {
      if selectedPrompt == None {
        return None;
      }
      isLoading := true;
      generatedContent := "";
      request := Some(Request(Model, selectedPrompt.value.text));
    }

    /** The generate handler after its `await`: shows the response's text,
        or the fixed apology on failure, and always ends the loading state. */
    method CompleteGenerate(outcome: Outcome)
      requires Valid()
      modifies this
      ensures Valid()
      ensures outcome.Response? ==> generatedContent == outcome.text
      ensures outcome.Failure? ==> generatedContent == FailureMessage
      ensures !isLoading
      ensures view == old(view) && selectedPrompt == old(selectedPrompt)
      ensures activeCategory == old(activeCategory) && copyStatus == old(copyStatus)
    {
      match outcome {
        case Response(text) =>
          generatedContent := text;
        case Failure =>
          generatedContent := FailureMessage;
      }
      isLoading := false;
    }

    /** A click on the copy button of `p`: returns the text written to the
        clipboard and the status snapshot the pending timer captured, and
        marks `p` as copied. */
    method Copy(p: Prompt) returns (clipboard: string, snapshot: Status)
      requires Valid()
      modifies this
      ensures Valid()
      ensures clipboard == p.text && snapshot == old(copyStatus)
      ensures copyStatus == MarkCopied(old(copyStatus), p.id)
      ensures view == old(view) && selectedPrompt == old(selectedPrompt)
      ensures activeCategory == old(activeCategory) && isLoading == old(isLoading)
      ensures generatedContent == old(generatedContent)
    {
      clipboard := p.text;
      snapshot := copyStatus;
      copyStatus := MarkCopied(copyStatus, p.id);
    }

    /** The copy timer as written: it replaces the whole status by the
        click-time snapshot with `id` cleared, discarding every change made
        since that click. */
    method ClearCopied(snapshot: Status, id: int)
      requires Valid()
      modifies this
      ensures Valid()
      ensures copyStatus == Cleared(snapshot, id)
      ensures view == old(view) && selectedPrompt == old(selectedPrompt)
      ensures activeCategory == old(activeCategory) && isLoading == old(isLoading)
      ensures generatedContent == old(generatedContent)
    {
      copyStatus := Cleared(snapshot, id);
    }

    /** The copy timer as intended: it clears `id` in the status current
        when it fires and leaves every other entry as it is. */
    method ClearCopiedLatest(id: int)
      requires Valid()
      modifies this
      ensures Valid()
      ensures copyStatus == Cleared(old(copyStatus), id)
      ensures view == old(view) && selectedPrompt == old(selectedPrompt)
      ensures activeCategory == old(activeCategory) && isLoading == old(isLoading)
      ensures generatedContent == old(generatedContent)
    {
      copyStatus := Cleared(copyStatus, id);
    }
  }

  /** Choosing a prompt and going straight back leaves the gallery with no
      selection and no output. */
  method UseThenBack(p: Prompt) returns (view: View, selected: Option<Prompt>, output: string)
    ensures view == Gallery && selected == None && output == ""
  {
    var app := new App();
    app.UsePrompt(p);
    app.BackToGallery();
    view, selected, output := app.view, app.selectedPrompt, app.generatedContent;
  }

  /** Going back after a successful generation keeps the output: returning
      to the gallery does not clear it, only choosing a prompt does. */
  method BackKeepsOutput(p: Prompt, text: string) returns (outputInGallery: string, outputReopened: string)
    ensures outputInGallery == text && outputReopened == ""
  {
    var app := new App();
    app.UsePrompt(p);
    var request := app.StartGenerate();
    app.CompleteGenerate(Response(text));
    app.BackToGallery();
    outputInGallery := app.generatedContent;
    app.UsePrompt(p);
    outputReopened := app.generatedContent;
  }

  /** A response that arrives after the user went back and opened another
      prompt is shown on that other prompt's screen: completion is not tied
      to the prompt that started the request. */
  method LateResponseShownForOtherPrompt(p: Prompt, q: Prompt, text: string)
    returns (shown: Option<Prompt>, output: string, sent: Option<Request>)
    ensures sent == Some(Request(Model, p.text))
    ensures shown == Some(q) && output == text
  {
    var app := new App();
    app.UsePrompt(p);
    sent := app.StartGenerate();
    app.BackToGallery();
    app.UsePrompt(q);
    app.CompleteGenerate(Response(text));
    shown, output := app.selectedPrompt, app.generatedContent;
  }

  /** Copying two prompts within the timer's delay, with the timers as
      written: after both have fired the first prompt is stuck at "Copied!". */
  method OverlappingCopiesAsWritten(a: Prompt, b: Prompt) returns (labelA: string, labelB: string)
    requires a.id != b.id
    ensures labelA == CopiedLabel && labelB == DefaultLabel
  {
    var app := new App();
    var clipA, snapshotA := app.Copy(a);
    var clipB, snapshotB := app.Copy(b);
    app.ClearCopied(snapshotA, a.id);
    app.ClearCopied(snapshotB, b.id);
    labelA, labelB := app.CopyButtonLabel(a), app.CopyButtonLabel(b);
  }

  /** The same clicks with timers that clear the current status: both
      buttons read "Copy" again. */
  method OverlappingCopiesCorrected(a: Prompt, b: Prompt) returns (labelA: string, labelB: string)
    ensures labelA == DefaultLabel && labelB == DefaultLabel
  {
    var app := new App();
    var clipA, snapshotA := app.Copy(a);
    var clipB, snapshotB := app.Copy(b);
    app.ClearCopiedLatest(a.id);
    app.ClearCopiedLatest(b.id);
    labelA, labelB := app.CopyButtonLabel(a), app.CopyButtonLabel(b);
  }
}
