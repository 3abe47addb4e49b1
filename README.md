# Widget template: a verified model

The widget template is a small browser library for interactive lesson
pages. A `WidgetPage` builds asset paths for its sounds, registers the
widgets found on the page and forwards resize events to them. Two widgets
are modelled here:

- a **multiple-choice** question: a radio group of choice buttons with a
  roving tab stop;
- an **arrange-code** exercise: code blocks that the learner reorders by
  drag and drop until their `data-index` keys are in order.

The project has four modules:

- `Wrappers` (`wrappers.dfy`) holds `Option`.
- `Page` (`page.dfy`) holds:
  - the asset-path builder, as pure functions over strings;
  - the slash-trimming regular expressions, as recursive functions;
  - `class WidgetPage`, with the host callbacks as counters, the widget registry and a log of the resize calls.
  - `PageExamples` holds two worked paths.
- `ArrangeCode` (`arrange_code.dfy`) holds:
  - JavaScript's string `<`, as `LexLess`;
  - the order check, as a predicate and a loop method;
  - the block move, as a function on the block order;
  - `class ArrangeCodeWidget`, whose methods change the block order, the per-block class flags (an array) and the drag fields.
- `MultipleChoice` (`multiple_choice.dfy`) holds:
  - the widget's behaviour as functions over a `ChoiceState` value, with its properties as lemmas;
  - `class MultipleChoiceWidget`, which keeps the buttons in an array. Each method's `forEach` loops and index searches are proved to produce `Choose`, `Keydown` and the other specification functions applied to the old state.

Across the widgets:

- A DOM element is represented by its position or id.
- Widgets call the page's counters, such as `page.correctSounds`, and may change only those fields.
- `data-index` values are usually numerals, but `checkOrder` compares them as strings, and the model follows the code: `["9", "10"]` is rejected (`ArrangeCode.KeysCompareAsStrings`).

## Model

| member | source | states |
|---|---|---|
| Page.Root | assets/src/js/WidgetPage.js:60-64 | the root is `../..` exactly when the hostname is `localhost` or `127.0.0.1`, and `/assets/courses/<course>/<project>/assets/widgets/` otherwise |
| Page.TrimSlashes | assets/src/js/WidgetPage.js:67-68 | the global replace of the leading and the trailing run of slashes: leading slashes removed, then trailing ones; its properties are `TrimSlashesSpec`, `TrimSlashesOfPadded`, `TrimmedIsFixed` and `TrimSlashesIdempotent` |
| Page.TrimTrailingSlashesSpec | assets/src/js/WidgetPage.js:66 | removing `/+$` keeps a prefix of the input, drops only slashes, and leaves no trailing slash |
| Page.TrimLeadingSlashesSpec | assets/src/js/WidgetPage.js:67 | removing `^/+` keeps a suffix of the input, drops only slashes, and leaves no leading slash |
| Page.TrimSlashesSpec | assets/src/js/WidgetPage.js:67-68 | the cleaned prefix or filename has no slash at either end and is a contiguous slice of the input, with only slashes removed on each side, so interior characters are unchanged |
| Page.TrailingOfPadded | assets/src/js/WidgetPage.js:66 | trailing-slash removal gives back any text that does not end in `/`, whatever run of slashes follows it |
| Page.LeadingOfPadded | assets/src/js/WidgetPage.js:67 | leading-slash removal gives back any text that does not start with `/`, whatever run of slashes precedes it |
| Page.TrimSlashesOfPadded | assets/src/js/WidgetPage.js:67-68 | trimming a clean part padded by slashes on both sides gives back the clean part |
| Page.TrimmedIsFixed | assets/src/js/WidgetPage.js:67-68 | an already-clean part is unchanged by trimming |
| Page.TrimSlashesIdempotent | assets/src/js/WidgetPage.js:66-68 | trimming twice is the same as trimming once |
| Page.CleanDevelopmentRoot | assets/src/js/WidgetPage.js:60-66 | the development root `../..` has no trailing slash to remove |
| Page.CleanProductionRoot | assets/src/js/WidgetPage.js:61-66 | cleaning the production root removes exactly its one trailing slash |
| Page.GetAssetPath | assets/src/js/WidgetPage.js:59-71 | the path is the environment's cleaned root, then `/`, the cleaned prefix, `/`, and the cleaned filename |
| Page.AssetPathOfPaddedParts | assets/src/js/WidgetPage.js:59-71 | stray slashes around the prefix and the filename never reach the path: it is the root, the bare prefix, `/` and the bare filename |
| Page.AssetPathOfCleanParts | assets/src/js/WidgetPage.js:70 | for clean parts the path is the cleaned root joined to prefix and filename with single slashes |
| PageExamples.ProductionSoundPath | assets/src/js/WidgetPage.js:29 | away from localhost, `("correct.mp3", "shared")` gives `/assets/courses/ai-story-studio-6-8/ai-story-studio-6-8/assets/widgets/shared/correct.mp3` |
| PageExamples.DevelopmentPathWithStraySlashes | assets/src/js/WidgetPage.js:66-70 | on localhost, `("/correct.mp3/", "//shared/")` gives `../../shared/correct.mp3` |
| Page.Constructed | assets/src/js/WidgetPage.js:81-88 | the widgets the `try`/`catch` loop registers: each successful construction, in container order, and nothing for one that threw; its properties are `ConstructedAppend`, `ConstructedMembers` and `ConstructedAllSucceed` |
| Page.ConstructedAppend | assets/src/js/WidgetPage.js:81-88 | the widgets built from two runs of containers are those of the first run followed by those of the second |
| Page.ConstructedMembers | assets/src/js/WidgetPage.js:81-88 | a widget is registered exactly when its construction succeeded; failed constructions are skipped |
| Page.ConstructedAllSucceed | assets/src/js/WidgetPage.js:81-88 | when no constructor throws, one widget is registered per container, in container order |
| Page.WidgetPage.constructor | assets/src/js/WidgetPage.js:13-37 | the three sound paths come from the asset-path builder with prefix `shared`; the registry starts empty |
| Page.WidgetPage.PlayCorrectSound | assets/src/js/WidgetPage.js:177-179 | the correct sound plays once more |
| Page.WidgetPage.PlayActionSound | assets/src/js/WidgetPage.js:184-186 | the action sound plays once more |
| Page.WidgetPage.PlayIncorrectSound | assets/src/js/WidgetPage.js:191-193 | the incorrect sound plays once more |
| Page.WidgetPage.Celebrate | assets/src/js/WidgetPage.js:116-118 | one more celebration |
| Page.WidgetPage.RegisterWidget | assets/src/js/WidgetPage.js:79-90 | the registry only grows: old entries stay, the successfully built widgets are appended in container order, and the whole list is returned |
| Page.WidgetPage.HandleResize | assets/src/js/WidgetPage.js:198-202 | `onResize` is called once on each registered widget, in registration order |
| ArrangeCode.LexLess | assets/src/js/ArrangeCodeWidget.js:105 | JavaScript's `<` on strings: the first differing character decides, and a proper prefix comes first; its properties are `LexLessIrreflexive`, `LexLessTransitive` and `LexLessTotal` |
| ArrangeCode.LexLessIrreflexive | assets/src/js/ArrangeCodeWidget.js:105 | no key is greater than itself under string comparison |
| ArrangeCode.LexLessTransitive | assets/src/js/ArrangeCodeWidget.js:105 | string comparison is transitive |
| ArrangeCode.LexLessTotal | assets/src/js/ArrangeCodeWidget.js:105 | of two different keys, one is less than the other |
| ArrangeCode.NotAfterTransitive | assets/src/js/ArrangeCodeWidget.js:105 | "not greater than" is transitive, so adjacent checks chain |
| ArrangeCode.CheckOrder | assets/src/js/ArrangeCodeWidget.js:101-110 | the pairwise scan answers true exactly when every adjacent pair has two present, non-empty keys with the first not greater than the second |
| ArrangeCode.InOrderIsSorted | assets/src/js/ArrangeCodeWidget.js:101-110 | for two or more blocks, passing the adjacent check is the same as every key being present and non-empty and the whole sequence being sorted |
| ArrangeCode.InOrderSpan | assets/src/js/ArrangeCodeWidget.js:102-108 | in an accepted order, any earlier block's key is not greater than any later block's |
| ArrangeCode.ShortOrderAccepted | assets/src/js/ArrangeCodeWidget.js:102 | zero or one block is always accepted, even without a key |
| ArrangeCode.MissingKeyRejected | assets/src/js/ArrangeCodeWidget.js:103-106 | a missing or empty key in any adjacent pair rejects the whole order |
| ArrangeCode.EqualKeysAccepted | assets/src/js/ArrangeCodeWidget.js:105 | equal keys are accepted |
| ArrangeCode.KeysCompareAsStrings | assets/src/js/ArrangeCodeWidget.js:105 | `"9"` before `"10"` is rejected and `"10"` before `"9"` accepted, because keys compare as strings |
| ArrangeCode.IndexOf | assets/src/js/ArrangeCodeWidget.js:34 | the position found is the first one holding the block |
| ArrangeCode.Moved | assets/src/js/ArrangeCodeWidget.js:68-76 | the child order after `removeChild` of the dragged block and `insertBefore` the child then at the target's old index, or an append when there is none; its properties are `MovedPlacesBlock`, `MovedIsPermutation`, `MovedKeepsDistinct` and `MovedKeepsBlocks` |
| ArrangeCode.MovedPlacesBlock | assets/src/js/ArrangeCodeWidget.js:68-76 | after a move the dragged block sits exactly at the target index, and the other blocks keep their relative order |
| ArrangeCode.MovedIsPermutation | assets/src/js/ArrangeCodeWidget.js:68-76 | a move is a permutation of the blocks |
| ArrangeCode.MovedKeepsDistinct | assets/src/js/ArrangeCodeWidget.js:68-76 | a move never duplicates a block |
| ArrangeCode.MovedKeepsBlocks | assets/src/js/ArrangeCodeWidget.js:68-76 | a move keeps exactly the same set of blocks, each one once |
| ArrangeCode.KeysAtMoved | assets/src/js/ArrangeCodeWidget.js:68-79 | after a move the order check reads the same keys as before, each as often, only rearranged |
| ArrangeCode.DropScenario | assets/src/js/ArrangeCodeWidget.js:58-86 | keys 3, 1, 2: dragging 1 onto 3 gives 1, 3, 2, which is rejected; then dragging 2 onto 3 gives 1, 2, 3, which is accepted |
| ArrangeCode.Entered | assets/src/js/ArrangeCodeWidget.js:42-50 | the entered block's flags after `draggedContainerIndex > targetIndex` adds `dragover-up` and otherwise `<` adds `dragover-down`, with JavaScript's comparison of `undefined` and `null`; its properties are `EnteredDuringDrag` and `EnteredWithoutDrag` |
| ArrangeCode.EnteredDuringDrag | assets/src/js/ArrangeCodeWidget.js:42-50 | entering a block marks `dragover-up` when the drag began below it, `dragover-down` when above it, and nothing on the block itself |
| ArrangeCode.EnteredWithoutDrag | assets/src/js/ArrangeCodeWidget.js:45-49 | before any drag nothing is marked; after a drag has ended the recorded `null` compares as 0, so every block but the first is marked `dragover-down` |
| ArrangeCode.ArrangeCodeWidget.constructor | assets/src/js/ArrangeCodeWidget.js:12-15 | blocks start in page order, unmarked, with nothing dragged; `DragMarked` (only the block of a drag in progress has `dragged`) holds |
| ArrangeCode.ArrangeCodeWidget.OnDragStart | assets/src/js/ArrangeCodeWidget.js:31-35 | the block becomes the dragged one, gains `dragged`, and its current position is recorded; started outside a drag, it keeps `DragMarked`, so at most one block is `dragged` |
| ArrangeCode.ArrangeCodeWidget.OnDragEnter | assets/src/js/ArrangeCodeWidget.js:42-50 | only the entered block's flags change, as `Entered` says; `DragMarked` is kept |
| ArrangeCode.ArrangeCodeWidget.OnDragLeave | assets/src/js/ArrangeCodeWidget.js:52-56 | the left block loses both dragover flags; nothing else changes, and `DragMarked` is kept |
| ArrangeCode.ArrangeCodeWidget.ClearDragover | assets/src/js/ArrangeCodeWidget.js:65-66 | the drop target loses both dragover flags; `DragMarked` is kept |
| ArrangeCode.ArrangeCodeWidget.MoveChild | assets/src/js/ArrangeCodeWidget.js:68-76 | removing the dragged block and inserting it before the target's old position, or appending it, gives `Moved` of the old order |
| ArrangeCode.ArrangeCodeWidget.UpdateCorrectMark | assets/src/js/ArrangeCodeWidget.js:79-85 | the `correct` mark equals the order check of the new order; the correct sound and the celebration play once exactly when it holds |
| ArrangeCode.ArrangeCodeWidget.OnDrop | assets/src/js/ArrangeCodeWidget.js:58-86 | with no dragged block, or a drop onto itself, nothing changes; otherwise the target is unmarked, the dragged block moves to the target's index, the action sound plays once, and the mark, sound and celebration follow the order check; `DragMarked` is kept |
| ArrangeCode.ArrangeCodeWidget.OnDragEnd | assets/src/js/ArrangeCodeWidget.js:88-91 | `dragged` is removed and the recorded index becomes `null`; the dragged block stays set, and `DragMarked` is kept, so no block is left `dragged` |
| MultipleChoice.Selected | assets/src/js/MultipleChoiceWidget.js:85-91 | exactly the chosen button is `aria-checked`, and nothing else about any button changes |
| MultipleChoice.AllDisabled | assets/src/js/MultipleChoiceWidget.js:106-110 | every button is disabled and `aria-disabled`, and nothing else changes |
| MultipleChoice.DisabledAt | assets/src/js/MultipleChoiceWidget.js:122-124 | the wrong button is disabled and `aria-disabled`, and every other button is untouched |
| MultipleChoice.RovedTo | assets/src/js/MultipleChoiceWidget.js:218-224 | exactly one button has tabindex 0, every other has -1, and nothing else changes |
| MultipleChoice.FirstEnabledSpec | assets/src/js/MultipleChoiceWidget.js:141-146 | the forward search answers the lowest enabled position in its range, or -1 exactly when all there are disabled |
| MultipleChoice.LastEnabledSpec | assets/src/js/MultipleChoiceWidget.js:192-194 | the backward search answers the highest enabled position in its range, or -1 exactly when all there are disabled |
| MultipleChoice.CountEnabledPositive | assets/src/js/MultipleChoiceWidget.js:136-138 | the filter of available buttons is non-empty exactly when some button is enabled |
| MultipleChoice.NextAvailable | assets/src/js/MultipleChoiceWidget.js:140-156 | the first enabled button after the current index, or else the first enabled one before it, or -1; its properties are `NextAvailableSpec` |
| MultipleChoice.NextAvailableSpec | assets/src/js/MultipleChoiceWidget.js:135-156 | the next focus after a wrong answer is the nearest enabled button after the current one, wrapping around, never the current one, and absent exactly when every other button is disabled |
| MultipleChoice.Probe | assets/src/js/MultipleChoiceWidget.js:208 | every probed position is within `[0, n)` |
| MultipleChoice.ProbeStep | assets/src/js/MultipleChoiceWidget.js:208 | one step of `(newIndex + direction + buttonCount) % buttonCount` reaches the next probe `start + k*direction (mod n)` |
| MultipleChoice.NextEnabledFromSpec | assets/src/js/MultipleChoiceWidget.js:207-215 | the search from step k finds the first enabled probe at step k or later, or -1 when all those are disabled |
| MultipleChoice.ProbeCovers | assets/src/js/MultipleChoiceWidget.js:207-212 | the n steps reach every button, in either direction |
| MultipleChoice.NextEnabledIndex | assets/src/js/MultipleChoiceWidget.js:202-216 | the first enabled button among the probes `(start + k·direction) mod n` for k = 1..n, or -1; its properties are `NextEnabledIndexSpec`, `HomeFindsFirst`, `EndFindsLast` and `StepsDownCycles` |
| MultipleChoice.NextEnabledIndexSpec | assets/src/js/MultipleChoiceWidget.js:202-216 | the circular search answers -1 exactly when no button is enabled; otherwise the first enabled button among `s+d, s+2d, …, s+n·d` (mod n), in range |
| MultipleChoice.HomeFindsFirst | assets/src/js/MultipleChoiceWidget.js:189-191 | Home goes to the lowest enabled button |
| MultipleChoice.EndFindsLast | assets/src/js/MultipleChoiceWidget.js:192-194 | End goes to the highest enabled button |
| MultipleChoice.ArrowMovesToNeighbour | assets/src/js/MultipleChoiceWidget.js:183-188 | an arrow key moves to the adjacent button, wrapping at either end, when that button is enabled |
| MultipleChoice.InitialIsConsistent | assets/src/js/MultipleChoiceWidget.js:61-68 | a fresh widget is unanswered, both feedback regions are hidden, and a non-empty group has its tab stop on the first button only |
| MultipleChoice.AnsweredIsFinal | assets/src/js/MultipleChoiceWidget.js:168 | once answered, neither a click (line 71) nor a key changes any state or plays anything |
| MultipleChoice.Choose | assets/src/js/MultipleChoiceWidget.js:70-165 | `handleChoice` on the widget state: nothing once answered; otherwise select the button, then the correct-answer or wrong-answer branch; its properties are `CorrectChoice`, `IncorrectChoice`, `AnsweredIsFinal` and `EventsKeepConsistent` |
| MultipleChoice.CorrectChoice | assets/src/js/MultipleChoiceWidget.js:93-119 | the correct answer sets `answered`, disables every button, checks only the chosen one, shows the correct feedback and hides the incorrect one; every tabindex is unchanged |
| MultipleChoice.IncorrectChoice | assets/src/js/MultipleChoiceWidget.js:121-165 | a wrong answer disables only that button, keeps `answered` false, shows the incorrect feedback, leaves the current index on the chosen button, and moves the tab stop to the next available button, or leaves every tabindex unchanged when there is none |
| MultipleChoice.Keydown | assets/src/js/MultipleChoiceWidget.js:167-200 | `handleKeydown` on the widget state: nothing once answered, `Choose` for Space and Enter, and for the navigation keys a move of the tab stop and the current index to `KeyTarget`, when it is not -1; its properties are `NavigationKey`, `KeydownIsMonotone`, `EventsKeepConsistent` and `CelebratesOnce` |
| MultipleChoice.NavigationKey | assets/src/js/MultipleChoiceWidget.js:180-199 | a navigation key moves the tab stop and the current index to an enabled button (first for Home, last for End), and changes nothing when none is enabled or the key is not handled |
| MultipleChoice.KeydownIsMonotone | assets/src/js/MultipleChoiceWidget.js:106-124 | no click or key re-enables a button or resets `answered`; the group's size and the correct button never change |
| MultipleChoice.EventsKeepConsistent | assets/src/js/MultipleChoiceWidget.js:167-200 | clicks and keys keep the invariant: a non-empty group has exactly one button with tabindex 0; once answered, the checked button is the correct one, all buttons are disabled, and only the correct feedback shows |
| MultipleChoice.NextEnabledFromFlags | assets/src/js/MultipleChoiceWidget.js:207-212 | the circular search depends only on which buttons are disabled |
| MultipleChoice.ArrowDownSearch | assets/src/js/MultipleChoiceWidget.js:202-216 | ArrowDown from button s finds the first enabled button after s, or else the first enabled one from the top up to s itself |
| MultipleChoice.ArrowDownStep | assets/src/js/MultipleChoiceWidget.js:183-185 | from an enabled button, ArrowDown lands on the enabled button whose rank among the enabled buttons is one more, wrapping to the first after the last |
| MultipleChoice.ArrowDownOnce | assets/src/js/MultipleChoiceWidget.js:183-185 | one ArrowDown on an open question keeps it open, switches no button on or off, and moves the current index to the next enabled button by rank |
| MultipleChoice.PressArrowDownKeeps | assets/src/js/MultipleChoiceWidget.js:183-185 | any number of ArrowDown presses keeps the question open, switches no button on or off, and leaves the current index on an enabled button |
| MultipleChoice.PressArrowDownSteps | assets/src/js/MultipleChoiceWidget.js:183-185 | m ArrowDown presses move the current index along m steps of the circular search over the starting buttons |
| MultipleChoice.StepsDownRank | assets/src/js/MultipleChoiceWidget.js:202-216 | m forward steps from an enabled button reach the enabled button whose rank is m more, modulo the number of enabled buttons |
| MultipleChoice.StepsDownCycles | assets/src/js/MultipleChoiceWidget.js:202-216 | as many forward steps as there are enabled buttons lead back to the starting button |
| MultipleChoice.ArrowDownCycles | assets/src/js/MultipleChoiceWidget.js:183-185 | pressing ArrowDown once per enabled button brings the current index back to the enabled button it started on |
| MultipleChoice.CelebratesOnce | assets/src/js/MultipleChoiceWidget.js:112-118 | after the correct answer, no later click or key plays the correct sound or celebrates again |
| MultipleChoice.MultipleChoiceWidget.constructor | assets/src/js/MultipleChoiceWidget.js:21-49 | feedback regions found in the markup start hidden, the state is unanswered at index 0, and the tab stop is set up |
| MultipleChoice.MultipleChoiceWidget.InitializeAccessibility | assets/src/js/MultipleChoiceWidget.js:61-68 | a non-empty group ends with tabindex 0 on the first button and -1 on every other |
| MultipleChoice.MultipleChoiceWidget.HandleChoice | assets/src/js/MultipleChoiceWidget.js:70-83 | the buttons, answer, index and feedback become `Choose` of the old state; the correct sound and the celebration play once exactly when the choice answers correctly |
| MultipleChoice.MultipleChoiceWidget.UpdateSelection | assets/src/js/MultipleChoiceWidget.js:85-91 | only the chosen button is `aria-checked`, and the current index becomes the chosen one |
| MultipleChoice.MultipleChoiceWidget.HandleCorrectAnswer | assets/src/js/MultipleChoiceWidget.js:93-119 | answered, correct feedback shown, incorrect feedback hidden, every button disabled, and one correct sound and one celebration |
| MultipleChoice.MultipleChoiceWidget.HandleIncorrectAnswer | assets/src/js/MultipleChoiceWidget.js:121-133 | the chosen button is disabled, the incorrect feedback shows, and the tab stop moves as `NextAvailable` says |
| MultipleChoice.MultipleChoiceWidget.FocusNextAvailableButton | assets/src/js/MultipleChoiceWidget.js:135-165 | the tab stop moves to `NextAvailable` of the current index when there is one, and otherwise nothing changes; the current index is not updated |
| MultipleChoice.MultipleChoiceWidget.CountAvailable | assets/src/js/MultipleChoiceWidget.js:136 | the count of enabled buttons |
| MultipleChoice.MultipleChoiceWidget.FindNext | assets/src/js/MultipleChoiceWidget.js:140-156 | the two early-exit loops find `NextAvailable` of the current index |
| MultipleChoice.MultipleChoiceWidget.HandleKeydown | assets/src/js/MultipleChoiceWidget.js:167-200 | the state becomes `Keydown` of the old state; the correct sound and the celebration play once exactly when Space or Enter answers correctly |
| MultipleChoice.MultipleChoiceWidget.FindKeyTarget | assets/src/js/MultipleChoiceWidget.js:180-195 | the arrow, Home and End branches pick `KeyTarget` of the buttons, which is -1 or an enabled button |
| MultipleChoice.MultipleChoiceWidget.GetNextEnabledIndex | assets/src/js/MultipleChoiceWidget.js:202-216 | the loop answers `NextEnabledIndex` of the buttons, whose properties are the lemmas above |
| MultipleChoice.MultipleChoiceWidget.MoveFocus | assets/src/js/MultipleChoiceWidget.js:218-228 | tabindex 0 only on the new button, and the current index becomes that button |

## Left out

- Confetti (`triggerConfetti`, `drawConfetti`, `createCanvas`) is left out. It is random, floating-point canvas animation.
- Audio playback is not modelled. Each `play*Sound` call and each `celebrate` call only increments a counter on the page.
- `revealNextSection` and the continue buttons are left out. They are DOM traversal, media queries and scrolling.
- Event wiring is left out: `addEventListener`, `preventDefault`, `dataTransfer.dropEffect`, `onDragOver` and `bindEvents`. A handler is modelled as a method that the caller invokes with the element's position or id.
- `.focus()` is left out. Only the `tabindex` attributes of the roving tab stop are modelled.
- `style.display` is modelled as `Feedback`: a region is either absent, or present and shown or hidden.
- DOM lookups are left out: `querySelector`, `querySelectorAll` and `closest`. In the arrange-code model the code container's children are exactly the blocks, and `getBlockContainers().indexOf` is `ArrangeCode.IndexOf` over the block order.
- `ArrangeCode.ArrangeCodeWidget.constructor` starts every block without `dragged`, `dragover-up` or `dragover-down` and the container without `correct`. The constructor in `ArrangeCodeWidget.js` touches no class, so the model assumes markup that carries none of these classes; `DragMarked` rests on that assumption.
- `window.location.hostname` is not read. `Page.GetAssetPath` and `Page.WidgetPage.constructor` take the hostname as a parameter.
- `Page.WidgetPage.RegisterWidget` does not take the selector or the widget class. It takes the outcome of each construction in container order: the new widget, or `None` when the constructor threw. The `console.error` log is left out.
- `Page.WidgetPage.HandleResize` records the widgets it notifies. `Widget.onResize` in `assets/src/js/Widget.js` does nothing, and widgets are opaque `object` handles.
- `Widget.js` itself is not modelled beyond that: it only stores the container and the page.
- `ArrangeCode.LexLess` compares Dafny characters by code point. JavaScript compares strings by UTF-16 code unit. The two orders agree except between astral characters and the characters U+E000 to U+FFFF.
- `ArrangeCode.ArrangeCodeWidget.OnDragEnd` requires a dragged block. `onDragEnd` dereferences `draggedContainer` and would throw without one.
- `ArrangeCode.ArrangeCodeWidget.OnDragStart` promises `DragMarked` only when no drag is in progress. A second `dragstart` without a `dragend` in between would leave two blocks `dragged`; the model relies on the browser pairing each `dragstart` with a `dragend`.
- `Page.WidgetPage.RegisterWidget` returns a copy of the registry, not the live `this.widgets` array. Later registrations, or a caller's `push` on the returned array, do not show through the returned value.
- `MultipleChoice.MultipleChoiceWidget.HandleChoice` and `HandleKeydown` accept an index of a disabled button. The browser dispatches no click to a disabled button and gives it no focus, so `handleChoice` and `handleKeydown` never see that case.
- `MultipleChoice.ArrowDownCycles` is proved for ArrowDown only. ArrowRight takes the same branch of `handleKeydown`; ArrowUp and ArrowLeft search backwards and are not given a cycle lemma.
- `MultipleChoice.MultipleChoiceWidget.GetNextEnabledIndex` requires the direction to be forward when the start is -1. Its only callers pass `(index, ±1)`, `(-1, 1)` and `(length, -1)`. That keeps the left operand of `%` non-negative, so Dafny's `%` and JavaScript's `%` agree.
- `ChoiceButton` values come from the markup. An attribute the markup omits is represented by a chosen default: `false` for flags, a number for `tabindex`.
