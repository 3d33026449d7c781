# LoveBook and FloatingHeartsBackground: a verified model

The system is a single-page love letter shown in a browser. It has two
stateful parts, and this project models and proves properties of both.

- **LoveBook** (`script.js`) is a 16-page book. It has next and previous
  buttons, arrow-key and space navigation, and a "back to start" action.
  - A flag blocks new next and previous moves while a page transition
    is animating.
  - A move finishes in a callback that runs 650 ms later, or at once
    when a page element is missing.
  - The buttons are disabled and relabelled to match.
  - The controller also shows a counter of the time since 9 October 2023
    as "N год(а)/лет, …" in six parts with Russian plural forms.
- **FloatingHeartsBackground** (`threejs-background.js`) is the animated
  background.
  - Phrase banners drift across the scene, at most five at once and
    never two with the same phrase.
  - New banners come from weighted phrase pools, picked at random by a
    spawn timer and by an 8% per-frame chance.
  - Each frame moves and ages every live banner, and retires a banner
    once it is off stage or too old.
  - The cloud image behind each phrase has its light background made
    transparent by an in-place pass over its RGBA bytes.
  - Once a second the background works out which page is on screen by
    scanning the pages' hidden flags.

## Layout

| file | module | contents |
|---|---|---|
| `book.dfy` | `Book` | the navigation state machine (`BookState`, `Step`, `Run`), its properties, and the class `LoveBook`, proved call by call against `Step` |
| `counter.dfy` | `Counter` | plural forms, calendar borrow, millisecond split, the counter text |
| `banners.dfy` | `Banners` | banners as values: admission, retirement, phrase pools, one frame's spawns |
| `background.dfy` | `Background` | the class `FloatingHeartsBackground`, whose methods follow the `Banners` and `PageScan` functions |
| `alpha.dfy` | `CloudAlpha` | the stride-4 alpha-keying loop over an `array<Byte>` |
| `pagescan.dfy` | `PageScan` | the two hidden-flag scans of the page watcher |

The model replaces things that cannot be verified with explicit inputs or
events:

- **Timers.** Every page-transition completion waits the same 650 ms, so
  pending completions form a FIFO queue of `Inc`, `Dec` or `SetFirst`.
  The event `Timer` (the method `LoveBook.Fire`) runs the oldest one.
- **Page elements.** Whether both page elements exist is the `found`
  parameter of each move.
- **Random draws.** Each `Math.random()` result is a parameter of type
  `Unit`, a real in [0, 1).
- **Frames and polling.** A frame's time is a parameter of
  `FloatingHeartsBackground.Animate`. A one-second poll of the page
  watcher is a call to `FloatingHeartsBackground.PollPage`.
- **Dates.** The current date, the length of the month before it and the
  milliseconds past the anchor date are parameters of
  `Counter.UpdateTimer`.

### Go-to-start during a transition

`goToStart` (`script.js:277-288`) is refused only on page 1. It never
checks `isTransitioning`, and unlike next and previous it does not
re-render the controls when it starts.

- If it is clicked while a move is in flight, a second completion is
  queued (`Book.StartIgnoresFlag`).
- The pending completions then run one after the other.
  `Book.RaceLeavesRange` shows one such input sequence that leaves the
  book on page 0:

  walk forward, next, go-to-start, timer, previous, timer, timer.

The `isTransitioning` flag is there to prevent rapid clicking
(`script.js:6`), so one might expect the page to stay within [1, 16]. It
does not, because `goToStart` ignores the flag. The model follows the code:

- The page bound is proved for runs without go-to-start
  (`Book.RunWithoutStartConsistent`).
- It is proved for runs where go-to-start only arrives while idle
  (`Book.RunIdleStartBounded`).
- The bound is not asserted unconditionally, because it is false.

## Model

| member | source | states |
|---|---|---|
| Book.Navigation | script.js:176-208 | definition of the rendered controls; properties in Book.ControlsMatchGuards |
| Book.KeyIntent | script.js:79-87 | definition of the key mapping; properties in Book.KeysActAsButtons |
| Book.Init | script.js:2-14 | definition of the state after construction and `init`'s renders; properties in Book.WalkReaches and Book.FiveRapidPresses |
| Book.Target | script.js:96 | definition of the page each completion leaves (`currentPage++` here, `currentPage--` at line 110, 1 at line 283); properties in Book.FullTransition, Book.FullPreviousTransition and Book.FullStartTransition |
| Book.NextAccepted | script.js:91 | definition of the next guard; properties in Book.MoveGuards and Book.ControlsMatchGuards |
| Book.PreviousAccepted | script.js:105 | definition of the previous guard; properties in Book.MoveGuards and Book.ControlsMatchGuards |
| Book.StepNext | script.js:90-102 | definition of `nextPage` on states; properties in Book.MoveGuards and Book.FullTransition |
| Book.StepPrevious | script.js:104-116 | definition of `previousPage` on states; properties in Book.MoveGuards and Book.FullPreviousTransition |
| Book.Complete | script.js:95-100 | definition of a completion callback; properties in Book.FullTransition, Book.FullPreviousTransition, Book.FullStartTransition and Book.StepConsistent |
| Book.Begin | script.js:91-95 | definition of an accepted move's start; properties in Book.MoveGuards and Book.StartIgnoresFlag |
| Book.Step | script.js:79-116 | definition of one input; properties in Book.MoveGuards, Book.StartGuard, Book.StepConsistent and Book.StepBounded |
| Book.MoveGuards | script.js:90-116 | next and previous change the state exactly when their guards hold (page below 16 or above 1, and no transition); an accepted move sets the flag and queues its completion, or, without page elements, has already moved the page by one and cleared the flag |
| Book.StartGuard | script.js:277-281 | go-to-start changes the state exactly when the book is not on page 1 |
| Book.StartIgnoresFlag | script.js:277-288 | go-to-start, whatever the flag, sets it and queues its completion behind the pending ones, which it keeps; during a transition two completions are then pending |
| Book.StartLeavesControlsStale | script.js:277-288 | go-to-start from an idle state sets the flag without re-rendering, so the previous button still shows as enabled and the container lacks the transitioning class |
| Book.ControlsMatchGuards | script.js:168-209 | in a consistent state, previous is disabled iff a previous click would be refused, next is disabled iff a next click would be refused, the label is "Конец" iff on the last page, and the container has the transitioning class iff the flag is set |
| Book.KeysActAsButtons | script.js:79-87 | ArrowRight and space act exactly as the next button, ArrowLeft as the previous button, and any other key changes nothing |
| Book.StepConsistent | script.js:90-165 | every event other than go-to-start keeps the page in range, at most one completion pending, the flag matching the queue, and the controls and indicator matching the state |
| Book.StepBounded | script.js:277-288 | every event, including go-to-start while idle, keeps the page bound and the single-pending-completion bound |
| Book.RunWithoutStartConsistent | script.js:90-165 | any sequence of next, previous, key and timer events keeps the state consistent and the page in [1, 16] |
| Book.RunIdleStartBounded | script.js:277-288 | the page bound holds over any run in which go-to-start only arrives while no transition is in flight |
| Book.RequestsIgnoredWhileTransitioning | script.js:90-116 | while a transition is in flight, any sequence of next and previous requests by button or key leaves the state unchanged |
| Book.FullTransition | script.js:90-165 | a next click and its timer leave the book idle on the next page, with nothing pending and the controls re-rendered |
| Book.FullPreviousTransition | script.js:104-116 | a previous click and its timer leave the book idle on the previous page, with nothing pending and the controls re-rendered |
| Book.FullStartTransition | script.js:277-288 | from an idle page other than 1, a go-to-start click and its timer leave the book idle on page 1, with nothing pending and the controls re-rendered |
| Book.WalkReaches | script.js:90-101 | k forward moves from the initial state reach page k + 1, idle and rendered |
| Book.RaceLeavesRange | script.js:277-288 | from any page 2..15 reached by walking forward, next, go-to-start, timer, previous, timer, timer leaves the book on page 0 |
| Book.FiveRapidPresses | script.js:90-101 | five next clicks in a row start one transition only, and its timer leaves the book on page 2 |
| Book.LoveBook.constructor | script.js:2-8 | the book starts on page 1 of 16, idle, nothing pending, controls and indicator rendered for page 1 |
| Book.LoveBook.UpdateNavigation | script.js:168-209 | the rendered controls become the navigation view of the current page and flag |
| Book.LoveBook.UpdatePageIndicator | script.js:211-217 | the indicator shows the current page |
| Book.LoveBook.RunCompletion | script.js:95-100 | a completion moves the page to its target, clears the flag and re-renders the controls and indicator |
| Book.LoveBook.TransitionPage | script.js:118-166 | with both page elements the completion is queued; without them it runs before the call returns |
| Book.LoveBook.NextPage | script.js:90-102 | the new state is the next-click step of the old state |
| Book.LoveBook.PreviousPage | script.js:104-116 | the new state is the previous-click step of the old state |
| Book.LoveBook.GoToStart | script.js:277-288 | the new state is the go-to-start step of the old state |
| Book.LoveBook.KeyDown | script.js:79-87 | the new state is the key step of the old state |
| Book.LoveBook.Fire | script.js:150-165 | a fire reports whether anything was pending, and the new state is the timer step of the old state |
| Counter.PluralForm | script.js:23-30 | form 0 iff the absolute value ends in 1 but not 11; form 1 iff it ends in 2, 3 or 4 but not 12, 13 or 14; form 2 otherwise |
| Counter.Plural | script.js:23-30 | definition of the noun chosen for a number; properties in Counter.PluralForm and Counter.PluralExamples |
| Counter.PluralLastTwoDigits | script.js:23-30 | the form depends only on the last two digits of the absolute value, and not on the sign |
| Counter.PluralExamples | script.js:59 | 1 год, 2 года, 5 лет, 11 лет, 21 год, 112 лет |
| Counter.CalendarDifference | script.js:33-46 | a month is borrowed iff the current day is before the start day; the total of months is preserved; months end in [0, 11]; days are non-negative when the start day fits in the previous month |
| Counter.SplitRemaining | script.js:54-57 | non-negative hours, and minutes and seconds in [0, 59], are the whole hours, minutes and seconds of the non-negative leftover milliseconds |
| Counter.SplitUnique | script.js:54-57 | no other hours, minutes and seconds fit the same milliseconds |
| Counter.NatDigits | script.js:59-64 | a number is written as decimal digits only, without a leading zero |
| Counter.DecimalRoundTrip | script.js:59-64 | reading a written number back gives the number, negatives included |
| Counter.Decimal | script.js:59-64 | definition of a number as written in the text; properties in Counter.DecimalRoundTrip |
| Counter.Part | script.js:59 | definition of one number and its noun; properties in Counter.DurationTextHasSixParts |
| Counter.DurationText | script.js:59-64 | definition of the counter text; properties in Counter.DurationTextHasSixParts |
| Counter.DurationTextHasSixParts | script.js:59-64 | the counter text holds exactly five commas, one per separator of its six parts |
| Counter.UpdateTimer | script.js:19-68 | the text is the six parts of the computed duration; months are preserved in total and lie in [0, 11]; days are the day difference plus the previous month's length when a month was borrowed, and are never negative for real month lengths; hours, minutes and seconds are the split of the leftover milliseconds |
| Banners.NewBanner | threejs-background.js:235-256 | a new banner has its text, age 0, a side of 1 or -1 and a direction opposite to it, a position 60 to 80 units out on that side, a speed in [0.02, 0.06) and a lifetime in [1200, 2000) |
| Banners.Admit | threejs-background.js:115-125 | admission changes nothing when five banners are live or one shows the text, and otherwise appends exactly one banner with that text, age 0 and direction opposite its side |
| Banners.HasText | threejs-background.js:122 | definition of the duplicate-text test; properties in Banners.Admit and Banners.AdmitKeepsInvariant |
| Banners.AdmitKeepsInvariant | threejs-background.js:115-125 | admission keeps at most five banners with pairwise distinct texts |
| Banners.Advance | threejs-background.js:350 | definition of one frame's motion and ageing; properties in Banners.SurvivorsExactly and Banners.SurvivorsAgeByOne |
| Banners.OffStage | threejs-background.js:385-387 | definition of "completely off screen"; properties in Banners.NewBannerSurvivesFirstFrame |
| Banners.OverAge | threejs-background.js:389 | definition of "older than 1.5 lifetimes"; properties in Banners.NewBannerSurvivesFirstFrame |
| Banners.Retires | threejs-background.js:384-389 | definition of the retirement test; properties in Banners.SurvivorsExactly |
| Banners.Survivors | threejs-background.js:346-393 | what one retirement pass leaves, never longer than its input; properties in Banners.SurvivorsExactly, Banners.SurvivorsAppend and Banners.SurvivorsKeepInvariant |
| Banners.SurvivorsExactly | threejs-background.js:346-393 | the banners left after a frame are exactly the non-retiring ones, each moved and aged by one frame |
| Banners.SurvivorsAppend | threejs-background.js:346-393 | the retirement pass works banner by banner, so survivors keep their order |
| Banners.SurvivorsAgeByOne | threejs-background.js:384 | every survivor is one frame older than the banner it was and keeps its text |
| Banners.SurvivorsKeepInvariant | threejs-background.js:346-393 | retirement keeps at most five banners with pairwise distinct texts |
| Banners.NewBannerSurvivesFirstFrame | threejs-background.js:236-252 | a banner just admitted is never retired in its first frame |
| Banners.TimedPool | threejs-background.js:328-331 | definition of the timed pool; properties in Banners.PoolSizes, Banners.EmphasisedWeight and Banners.OtherPhrasesWeight |
| Banners.ChancePool | threejs-background.js:340 | definition of the chance pool; properties in Banners.PoolSizes, Banners.EmphasisedWeight and Banners.OtherPhrasesWeight |
| Banners.PoolSizes | threejs-background.js:328-340 | the timed pool has 21 entries and the chance pool 20 |
| Banners.EmphasisedWeight | threejs-background.js:328-340 | "Прости меня" fills 5 entries of the timed pool and 4 of the chance pool |
| Banners.OtherPhrasesWeight | threejs-background.js:328-340 | every other phrase fills exactly one entry of each pool, so the emphasised phrase is weighted 5 to 1 in the timed pool and 4 to 1 in the chance pool |
| Banners.PoolsHoldOnlyPhrases | threejs-background.js:328-340 | every entry of either pool is a constant or an extra phrase |
| Banners.Pick | threejs-background.js:333 | a draw scaled to the pool and rounded down selects an element of the pool |
| Banners.PicksArePhrases | threejs-background.js:333-341 | either spawn picks a constant or an extra phrase |
| Banners.ChanceGuardMatchesCap | threejs-background.js:339 | the chance spawn's live-count guard agrees with admission's own cap |
| Banners.TimerDue | threejs-background.js:326 | definition of the spawn timer's test; used by Background.FloatingHeartsBackground.Animate |
| Banners.TimedSpawn | threejs-background.js:326-336 | definition of the timed spawn; properties in Banners.FrameKeepsInvariant |
| Banners.ChanceSpawn | threejs-background.js:339-343 | definition of the chance spawn; properties in Banners.ChanceGuardMatchesCap |
| Banners.FrameTexts | threejs-background.js:326-393 | definition of one frame's banners; properties in Banners.FrameKeepsInvariant and Banners.FirstDueFrameShowsPick |
| Banners.FirstDueFrameShowsPick | threejs-background.js:326-336 | a due frame on an empty stage, as the first frame after construction is, leaves the timed pick on stage, aged one frame |
| Banners.FrameKeepsInvariant | threejs-background.js:320-393 | a whole frame, both spawns and the retirement pass, keeps at most five banners with pairwise distinct texts |
| Background.FloatingHeartsBackground.constructor | threejs-background.js:3-28 | the background starts on page 1 and, through `init`, runs its first frame from no banners and spawn time 0: the spawn time becomes the frame time when the timer is due, the banners are that frame's result, and the invariant holds |
| Background.FloatingHeartsBackground.CreateFloatingText | threejs-background.js:115-262 | the banners become the admission of the text to the old banners, and the pool invariant is kept |
| Background.FloatingHeartsBackground.ClearOldTexts | threejs-background.js:105-113 | all banners are removed, the spawn time is rewound to 0 and the invariant holds |
| Background.FloatingHeartsBackground.RetireBanners | threejs-background.js:346-393 | the backward loop leaves exactly the survivors of the old banners, in order, and keeps the invariant |
| Background.FloatingHeartsBackground.Animate | threejs-background.js:320-393 | the spawn time becomes the frame time exactly when the timer was due, even if admission refused the phrase; the banners become both spawns followed by retirement; the invariant is kept |
| Background.FloatingHeartsBackground.PollPage | threejs-background.js:54-102 | the page becomes the detected page, and the call reports a change exactly when it differs from the old one |
| PageScan.LastVisible | threejs-background.js:64-75 | the result is an element that is not hidden with every later element hidden, or none when every element is hidden |
| PageScan.ScanResult | threejs-background.js:64-75 | definition of what one forEach walk leaves; properties in PageScan.LastVisible and PageScan.DetectedPage |
| PageScan.DetectedPage | threejs-background.js:58-75 | the page is one past the last visible element of the second list if it has one, else of the first list if that has one, else 1 |
| PageScan.DetectPage | threejs-background.js:58-75 | the two forEach loops compute the detected page |
| CloudAlpha.RoundTenths | threejs-background.js:183-187 | the byte stored for n/10 is within one half of it |
| CloudAlpha.ThirtyPercent | threejs-background.js:183 | 30% of an alpha is never above it |
| CloudAlpha.SixtyPercent | threejs-background.js:187 | 60% of an alpha is never above it |
| CloudAlpha.KeyPixel | threejs-background.js:178-188 | definition of one pixel's new alpha; properties in CloudAlpha.Keyed |
| CloudAlpha.KeyedAt | threejs-background.js:172-189 | definition of one byte after the pass; properties in CloudAlpha.Keyed and CloudAlpha.RemoveLightBackground |
| CloudAlpha.Keyed | threejs-background.js:172-189 | keying keeps the length and every byte that is not an alpha byte; no alpha rises; near-white pixels become transparent; a pixel with any channel at most 150 keeps its alpha |
| CloudAlpha.RemoveLightBackground | threejs-background.js:172-189 | the in-place loop leaves the buffer equal to the keyed old buffer |

## Left out

- Three.js scene setup, rendering, resizing and the hearts: calls into a library this model does not include, and floating-point motion.
- Canvas drawing around the pixel loop (image loading, `drawImage`, `getImageData`/`putImageData`, text styling): browser drawing APIs. Only the byte buffer is modelled.
- Banner y-wobble, rotation and opacity fading (`threejs-background.js:352-381`): trigonometric floating-point presentation that does not affect retirement. Accordingly `position.y` and `rotationSpeed` have no field in `Banners.Banner`, and their random draws are not parameters.
- The book-open override of the page watcher (`threejs-background.js:77-95`): a DOM selector and regular-expression heuristic on class names and ids.
- `activeTexts` (`threejs-background.js:18, 111`): it is only ever cleared and never filled, so it carries no state.
- Banner objects are values in a `seq`: the model does not capture that each mesh is a shared object also held by the scene.
- JavaScript `Date`: the construction of dates, `new Date(y, m, 0)` and the overflow of the `set*` calls that build the anchor date (`script.js:20, 40, 49-52`). The current date, the previous month's length and the milliseconds since the anchor are inputs.
- `setTimeout`, `setInterval` and `requestAnimationFrame`: replaced by the explicit `Timer` event, `Animate` and `PollPage`. The 50 ms entrance timer of `transitionPage` only sets styles and is not modelled.
- DOM styling and presentation: the CSS of `transitionPage`, the button classes, `innerHTML` markup (only the label word is kept), `openLetter`, music and audio, the certificate modal, and `console.log`.
- The per-page button lookup of `updateNavigation`: the model assumes the current page's buttons exist and keeps one rendered view.
- Floating-point arithmetic: positions, speeds, lifetimes and the spawn timer are exact reals.
- CloudAlpha.ThirtyPercent: the stored byte is modelled as `a·3/10` rounded half to even. `Uint8ClampedArray` instead rounds the floating-point product `a·0.3`, which may differ at ties. The contract states only that the result does not exceed the old alpha.
- CloudAlpha.SixtyPercent: the same, for `a·0.6`.
- CloudAlpha.KeyPixel: it inherits the rounding convention of the two functions above.
- Banners.Survivors: its own contract states only the length bound. Membership, order, ageing and the invariant are stated by the `Survivors*` lemmas.
- The rest of `init` (`threejs-background.js:22-28`): scene setup and the hearts are out of scope, the page watcher's first poll comes a second later (a `PollPage` call), and the frame loop after the first frame is a sequence of `Animate` calls.
