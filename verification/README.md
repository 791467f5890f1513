# React Prompt Gallery — a verified model of its core

The gallery is a single React component over a fixed table of eight
prompts. The user picks a category to filter the cards, copies a prompt's
text to the clipboard (the button reads "Copied!" for two seconds), or
opens a prompt on a generator screen and sends it to a text-generation
service, whose answer (or a fixed apology) is shown below it.

This project models that core in three modules:

- `Catalog` (`catalog.dfy`) — the prompt table and the two lists derived from
  it, as functions: the category buttons (`"All"`, then each category once,
  in the order a JavaScript `Set` keeps them) and the cards shown for the
  active category. The Set's order is given an independent
  characterisation (each value once, ordered by first occurrence), and the
  computed order is proved to be the one and only sequence meeting it.
- `CopyFeedback` (`copy_feedback.dfy`) — the per-prompt copy labels: the
  status map written on a click, the map written by the timer, and the text
  a copy button shows.
- `PromptGallery` (`app.dfy`) — the component's state as a class `App`
  with the six state fields and one method per handler. The asynchronous
  generate handler is split at its `await` into `StartGenerate` (which
  returns the request to send) and `CompleteGenerate` (which receives the
  service's text or a failure). The copy handler is split at its timer into
  `Copy` (which returns the clipboard text and the status snapshot the
  timer captured) and `ClearCopied` (which receives that snapshot). Every
  handler states its whole new state and keeps `Valid()`: the generator view
  always has a selected prompt, and no output is shown while a request is
  in flight. A few client methods run handler sequences on a fresh `App`
  and state what the user sees afterwards.

Behaviour of the code that is easy to misread:

- Going back to the gallery does not clear the generated output; only
  choosing a prompt (or starting a generation) does (`BackKeepsOutput`).
- The copy label is `"Copied!"`, and the empty string (not a removed entry)
  is what the timer writes; the button shows `"Copy"` for both an absent and
  an empty entry.
- The generate handler itself does not look at `isLoading`; only the
  disabled button prevents a second request. `StartGenerate` therefore
  requires `!isLoading`, which is what every caller (the button) ensures.
- A response is not tied to the prompt that requested it: one arriving after
  the user went back and opened another prompt is shown on that prompt's
  screen (`LateResponseShownForOtherPrompt`).

## Model

| member | source | states |
|---|---|---|
| `Catalog.InsertionOrder` | index.tsx:40 | The Set's order holds exactly the values of its input, none twice |
| `Catalog.Categories` | index.tsx:40 | The button list starts with "All" and continues with the Set's order of the table's categories |
| `Catalog.InsertionOrderFollowsFirstOccurrence` | index.tsx:40 | In the Set's order, a value comes before another exactly when its first occurrence in the input does |
| `Catalog.InsertionOrderIsInsertionOrder` | index.tsx:40 | The Set's order meets the independent characterisation: each value once, ordered by first occurrence |
| `Catalog.InsertionOrderUnique` | index.tsx:40 | Any sequence meeting that characterisation equals the Set's order, so the characterisation determines it |
| `Catalog.CategoriesSound` | index.tsx:40 | Every button after "All" names the category of some prompt |
| `Catalog.CategoriesComplete` | index.tsx:40 | Every prompt's category has a button after "All" |
| `Catalog.CategoriesDistinctInFirstUseOrder` | index.tsx:40 | After "All" no category repeats, and categories are listed in the order the table first uses them |
| `Catalog.WithCategory` | index.tsx:41 | The filtered list is never longer than the list it filters |
| `Catalog.WithCategoryMembers` | index.tsx:41 | The filter keeps exactly the prompts whose category equals the chosen one |
| `Catalog.FilteredPrompts` | index.tsx:41 | "All" shows the whole table; any other category shows exactly the table's prompts of that category |
| `Catalog.WithCategoryIsSubsequence` | index.tsx:41 | The filtered list is a subsequence of the table, so relative order is kept |
| `Catalog.WithCategoryAppend` | index.tsx:41 | Filtering a concatenation is the concatenation of the filtered parts |
| `Catalog.WithCategoryIdempotent` | index.tsx:41 | Filtering the filtered list again changes nothing |
| `Catalog.ListedCategoriesAreNonEmpty` | index.tsx:40-41 | Every category button after "All" shows at least one card |
| `Catalog.PromptIdsDistinct` | index.tsx:6-15 | The table has eight prompts with ids 1 to 8, so card keys are unique |
| `Catalog.TableCategories` | index.tsx:40 | For the embedded table the buttons are All, Creative, Coding, Marketing, Fun, Productivity |
| `Catalog.CodingShowsTwoAndSeven` | index.tsx:41 | For the embedded table "Coding" shows the prompts with ids 2 and 7, in that order |
| `CopyFeedback.MarkCopied` | index.tsx:74 | A click sets the prompt's entry to "Copied!" over the status it saw and keeps every other entry |
| `CopyFeedback.Cleared` | index.tsx:76 | The timer sets the prompt's entry to "" over the status it was given and keeps every other entry |
| `CopyFeedback.CopyLabel` | index.tsx:142 | The button shows "Copy" for an absent or empty entry and the stored text otherwise; never an empty label |
| `CopyFeedback.LabelsAfterCopy` | index.tsx:74 | After a click that button reads "Copied!" and no other button's text changes |
| `CopyFeedback.LabelsAfterClear` | index.tsx:76 | After a clear that button reads "Copy" and no other button's text differs from the status the clear started from |
| `CopyFeedback.SnapshotClearAgreesWhenAlone` | index.tsx:72-78 | With no other click in between, clearing from the click-time snapshot equals clearing the current status |
| `CopyFeedback.OverlappingCopiesFromSnapshots` | index.tsx:74-77 | Two overlapping clicks with snapshot timers leave the first prompt reading "Copied!" |
| `CopyFeedback.OverlappingCopiesFromCurrent` | index.tsx:74-77 | With timers that clear the current status both buttons read "Copy" again and all others are as before the clicks |
| `PromptGallery.App.constructor` | index.tsx:31-36 | Initial state: gallery view, no selection, category "All", not loading, no output, no copy feedback |
| `PromptGallery.App.ShowsGenerator` | index.tsx:80 | The generator screen needs the generator view and a selection; in a valid state the view alone decides |
| `PromptGallery.App.ShownPrompts` | index.tsx:41 | The gallery shows the whole table for "All"; otherwise exactly the table's prompts of the active category, in table order |
| `PromptGallery.App.CopyButtonLabel` | index.tsx:142 | A card's copy button shows `CopyLabel` of the current status: "Copy" for an absent or empty entry, the stored text otherwise, never an empty label |
| `PromptGallery.App.SelectCategory` | index.tsx:121 | A category button sets the active category and changes nothing else |
| `PromptGallery.App.UsePrompt` | index.tsx:43-47 | Selects the prompt, clears the output, opens the generator; category, loading flag and copy status unchanged |
| `PromptGallery.App.BackToGallery` | index.tsx:49-52 | Returns to the gallery with no selection; output, loading flag, category and copy status unchanged |
| `PromptGallery.App.StartGenerate` | index.tsx:54-62 | Without a selection nothing changes and nothing is sent; otherwise loading starts, output is cleared and the selected prompt's text is sent to the fixed model |
| `PromptGallery.App.CompleteGenerate` | index.tsx:63-69 | The output becomes the response text, or the fixed apology on failure; loading ends in both cases; nothing else changes |
| `PromptGallery.App.Copy` | index.tsx:72-74 | The prompt's text goes to the clipboard, the timer's snapshot is the status at click time, and the prompt is marked "Copied!" |
| `PromptGallery.App.ClearCopied` | index.tsx:75-77 | The timer as written: the status becomes the click-time snapshot with the prompt's entry emptied |
| `PromptGallery.App.ClearCopiedLatest` | index.tsx:75-77 | The timer as intended: only the prompt's entry of the current status is emptied |
| `PromptGallery.UseThenBack` | index.tsx:43-52 | Choosing a prompt and going straight back leaves the gallery with no selection and no output |
| `PromptGallery.BackKeepsOutput` | index.tsx:49-52 | After a successful generation, going back keeps the output; reopening a prompt clears it |
| `PromptGallery.LateResponseShownForOtherPrompt` | index.tsx:54-69 | A response to prompt p that lands after the user opened prompt q is shown on q's screen |
| `PromptGallery.OverlappingCopiesAsWritten` | index.tsx:72-78 | Copying two prompts within the delay, with the timers as written, leaves the first stuck at "Copied!" |
| `PromptGallery.OverlappingCopiesCorrected` | index.tsx:72-78 | With timers that clear the current status, both buttons read "Copy" after the delay |

## Findings

| source | as written | input that shows it | evidently intended | confidence | as-written member | corrected member |
|---|---|---|---|---|---|---|
| index.tsx:74-77 | The timer writes `{...copyStatus, [id]: ''}` using the status its click saw, so it also restores every other entry to its click-time value | From an empty status, copy prompt 1, then copy prompt 2 within two seconds; after both timers fire the status is `{1: 'Copied!', 2: ''}` and prompt 1's button reads "Copied!" for good | Each timer empties only its own prompt's entry in the current status, so both buttons read "Copy" again | not executed | `PromptGallery.OverlappingCopiesAsWritten` | `PromptGallery.App.ClearCopiedLatest` |

The corrected timer, `ClearCopiedLatest`, is proved to restore both
labels in `PromptGallery.OverlappingCopiesCorrected`, and in general in
`CopyFeedback.OverlappingCopiesFromCurrent`, where every other button also
keeps the label it had before the clicks. `App.ClearCopied` is kept
as written, because the model describes the program as it runs.

## Left out

- Rendering: the JSX layout, CSS classes, ARIA attributes, the SVG icons and the generate button's "Generating..." text; only the screen guard at line 80 is modelled.
- The generation service client and its network call: the request it would send is returned by `StartGenerate`, and its outcome is a parameter of `CompleteGenerate`.
- `CompleteGenerate`: the service's `text` field may be `undefined`; the model takes a string, and an absent text behaves like the empty string (nothing is shown).
- Logging of the failure to the console.
- The clipboard write: `Copy` returns the text that would be written; the platform call and its ignored result are not modelled.
- The two-second delay: the timer is an explicit later call of `ClearCopied`, not time.
- Asynchronous interleaving and React's batching and re-rendering: handlers run one at a time on the current state, so the closure's view of the state is the state at the call, and `CompleteGenerate` may be called in any state.
- Mounting the component into the page, and the API key configuration.
