# Portfolio page widgets: a verified model

This project models the stateful widgets of the portfolio site's
`js/additional-features.js`. The two carousels keep a small integer index, and
the three widgets other than the easter egg set the `active` CSS class on a
list of page elements. Each element's class is modelled as one boolean in an
`array<bool>`. The tab switcher keeps no index of its own. The easter egg keeps
a cursor into a key sequence and toggles no `active` class.

- **Multi-slide carousel** (`customCarousel`). Viewport breakpoints choose a
  window of 1, 2 or 3 slides. `goToSlide` clamps the index from above only.
  `nextSlide` and `prevSlide` wrap modulo `maxIndex + 1`, using JavaScript's
  truncating `%`. `updateSlide` marks a contiguous window of slides and one
  dot. The dots are created once, at start-up. A resize recomputes the window
  size but keeps the index and the dots.
- **Single-slide rotator** (`aboutCarousel`). A timer tick advances the index
  round the slides and leaves exactly one slide active.
- **Tab switcher** (`experienceTabs`). A click deactivates every tab and every
  panel, then activates the clicked tab and the panel whose id is the tab's
  `data-tab`. When no panel has that id, or the `data-tab` value is empty, the
  lookup gives `null` and the handler throws. At that point every panel is inactive.
- **Konami easter egg** (`easterEgg`). A cursor into the fixed ten-key
  sequence. A matching key advances it. Any other key resets it to 0, even a
  key that would start the sequence again. The tenth key calls `activate` and
  resets the cursor.

Modules: `ActiveFlags` (flag lists and their counts), `Modular` (JavaScript's
`%` and remainder facts), `Sequences` (slicing identities), `CustomCarousel`, `AboutCarousel`, `ExperienceTabs`
and `EasterEgg`. Each widget is a class. Its methods update the fields in
place, and their contracts tie the new state to pure functions. The
properties are proved as lemmas about those functions.

The viewport width is an integer parameter. Key events are strings. The
Konami matcher only compares keys and reads the sequence and its length, so
its functions and lemmas take the sequence as a parameter. The widget uses
them with the literal ten-key sequence. The markup's initial `active` flags
are a constructor parameter. The Konami class
keeps a ghost history of the keys it has seen, so that its cursor can be
related to the whole key sequence.

## Model

| member | source | states |
|---|---|---|
| `CustomCarousel.SlidesToShowFor` | js/additional-features.js:450-459 | the window size is always 1, 2 or 3: 3 exactly when width ≥ 992, 1 exactly when width < 768 |
| `CustomCarousel.SlidesToShowMonotone` | js/additional-features.js:450-459 | a wider viewport never shows fewer slides |
| `CustomCarousel.MaxIndex` | js/additional-features.js:462 | the last starting index is max(0, slideCount − slidesToShow): never negative, and when positive the window ending there ends at the last slide |
| `CustomCarousel.DotCount` | js/additional-features.js:420 | the number of dots created at start-up is one more than the last starting index at start-up |
| `Modular.JsRem` | js/additional-features.js:469 | JavaScript's `%`: magnitude below the divisor, sign of the dividend, equal to Dafny's `%` for non-negative dividends, and congruent to the dividend |
| `CustomCarousel.ClampIndex` | js/additional-features.js:461-465 | goToSlide's index is never above maxIndex; it is kept when not above maxIndex, otherwise it becomes maxIndex; a non-negative index stays non-negative (there is no lower clamp) |
| `CustomCarousel.NextIndex` | js/additional-features.js:467-471 | for any non-negative prior index, even one above the current maxIndex, the result lies in [0, maxIndex]; inside the range it steps by one and wraps from maxIndex to 0 |
| `CustomCarousel.PrevIndex` | js/additional-features.js:473-477 | for any non-negative prior index the result lies in [0, maxIndex]; inside the range it steps back by one and wraps from 0 to maxIndex |
| `CustomCarousel.NextPrevInverse` | js/additional-features.js:467-477 | for an index in [0, maxIndex], prevSlide undoes nextSlide and nextSlide undoes prevSlide |
| `CustomCarousel.NextIteratedIsShift` | js/additional-features.js:467-471 | k calls of nextSlide from an index in range give (index + k) mod (maxIndex + 1) |
| `CustomCarousel.NextCycle` | js/additional-features.js:467-471 | maxIndex + 1 calls of nextSlide bring the index back to where it started |
| `CustomCarousel.WindowFilled` | js/additional-features.js:479-487 | with the index in range, exactly min(slidesToShow, slideCount) slides are active |
| `CustomCarousel.DotsMatchPositionsAtStart` | js/additional-features.js:418-428 | with the start-up window size, each reachable index has exactly one active dot |
| `CustomCarousel.ResizeCanLeaveNoDotActive` | js/additional-features.js:413-416 | the dots are not rebuilt on resize: 5 slides opened at 1000px give 3 dots, and after shrinking to 500px, nextSlide from index 2 reaches index 3, where no dot is active |
| `CustomCarousel.ResizeCanLeaveIndexOutOfRange` | js/additional-features.js:413-416 | the index is not re-clamped on resize: index 4 is valid at 500px but exceeds maxIndex 2 at 1000px; the next nextSlide or prevSlide brings it back into range |
| `CustomCarousel.Carousel.Init` | js/additional-features.js:404-448 | with no slides init returns early (window size stays 3, no dots); otherwise the window size follows the width, DotCount dots are created, index 0 is shown and the first window is rendered |
| `CustomCarousel.Carousel.UpdateSlidesToShow` | js/additional-features.js:450-459 | the window size becomes SlidesToShowFor(width) |
| `CustomCarousel.Carousel.UpdateSlide` | js/additional-features.js:479-497 | afterwards slide i is active iff currentSlide ≤ i < currentSlide + slidesToShow, and dot i is active iff i = currentSlide |
| `CustomCarousel.Carousel.Resize` | js/additional-features.js:413-416 | new window size from the width; currentSlide and the dots are unchanged; the new window is rendered |
| `CustomCarousel.Carousel.GoToSlide` | js/additional-features.js:461-465 | currentSlide becomes the clamped index (in range for a non-negative index) and the new window is rendered |
| `CustomCarousel.Carousel.NextSlide` | js/additional-features.js:467-471 | currentSlide becomes NextIndex of its old value (in [0, maxIndex] if the old value was non-negative) and the new window is rendered |
| `CustomCarousel.Carousel.PrevSlide` | js/additional-features.js:473-477 | currentSlide becomes PrevIndex of its old value (in [0, maxIndex] if the old value was non-negative) and the new window is rendered |
| `CustomCarousel.Carousel.ClickDot` | js/additional-features.js:425 | a click on dot i goes to slide i clamped to maxIndex |
| `CustomCarousel.Carousel.KeyDown` | js/additional-features.js:438-441 | ArrowLeft acts as prevSlide, ArrowRight as nextSlide, and any other key changes nothing |
| `ActiveFlags.WindowCount` | js/additional-features.js:481-487 | the number of active slides in a window is the size of the window's overlap with the slide indices |
| `ActiveFlags.SelectionCount` | js/additional-features.js:490-496 | marking the element at index k gives exactly one active element when k is in range and none otherwise |
| `ActiveFlags.AllInactiveCount` | js/additional-features.js:384-385 | after everything is deactivated, no element is active |
| `AboutCarousel.Advance` | js/additional-features.js:353-356 | the timer tick keeps the index below the slide count; it steps by one and wraps from the last slide to 0 |
| `AboutCarousel.AdvanceIteratedIsShift` | js/additional-features.js:353-356 | k ticks move the index to (index + k) mod slideCount |
| `AboutCarousel.AdvanceCycle` | js/additional-features.js:353-356 | slideCount ticks bring the index back to the start |
| `AboutCarousel.AdvanceReachesEverySlide` | js/additional-features.js:350-356 | every slide becomes the active one within fewer than slideCount ticks |
| `AboutCarousel.OneSlideActive` | js/additional-features.js:358-366 | after updateSlide exactly one slide is active, and it is the one at currentSlide |
| `AboutCarousel.Rotator.Init` | js/additional-features.js:342-351 | index 0, with the markup's flags left as they are (init does not render) |
| `AboutCarousel.Rotator.NextSlide` | js/additional-features.js:353-356 | the index advances round the slides and only the new current slide is active |
| `AboutCarousel.Rotator.UpdateSlide` | js/additional-features.js:358-366 | slide i is active iff i = currentSlide |
| `ExperienceTabs.FirstIndexOf` | js/additional-features.js:389 | the id lookup finds the first panel with that id, and finds none exactly when no panel has it or the id is empty (an empty id attribute gives an element no id) |
| `ExperienceTabs.Tabs.Init` | js/additional-features.js:373-378 | the tabs, panels, their data-tab targets and ids are those of the markup |
| `ExperienceTabs.Tabs.Click` | js/additional-features.js:380-390 | the clicked tab is the only active tab; the first panel whose id is the tab's target is the only active panel; with no such panel the handler fails and every panel is inactive |
| `ExperienceTabs.ClickLeavesOneActive` | js/additional-features.js:380-390 | when the target is non-empty and a panel carries it, a click leaves exactly one active tab and exactly one active panel, whose id is the tab's target |
| `ExperienceTabs.MissingPanelLeavesNoneActive` | js/additional-features.js:383-389 | when no panel has the target id, or the target is empty, the click leaves no panel active |
| `EasterEgg.Step` | js/additional-features.js:220-228 | the cursor stays below the sequence length; a key equal to sequence[current] advances it; any other key resets it to 0; activate runs exactly on the matching last key, which also resets the cursor |
| `EasterEgg.Cursor` | js/additional-features.js:217-229 | starting from 0, the cursor stays in [0, 9] between key events |
| `EasterEgg.CursorSuffix` | js/additional-features.js:220-228 | when the cursor is c, the last c keys are the first c keys of the code, and the cursor was 0 just before them |
| `EasterEgg.CursorExtend` | js/additional-features.js:220-225 | from cursor 0, the first c keys of the code (c below its length) bring the cursor to c |
| `EasterEgg.ActivatedOnlyAfterCode` | js/additional-features.js:220-225 | if activate ran, the last keys are the whole code and the cursor was 0 before them |
| `EasterEgg.CodeAfterResetActivates` | js/additional-features.js:220-225 | typing the code from cursor 0 runs activate on its last key |
| `EasterEgg.ActivatedExactly` | js/additional-features.js:216-229 | activate runs if and only if the keys since the last reset spell the exact sequence |
| `EasterEgg.RepeatedFirstKeyMissesCode` | js/additional-features.js:226-228 | a mismatch resets to 0 even on a key equal to sequence[0]: when the code starts with a doubled key that does not occur again, typing that key once more before the code means the code is not recognised |
| `EasterEgg.ExtraArrowUpMissesKonami` | js/additional-features.js:216-228 | with the actual ten-key sequence, ArrowUp followed by the code does not call activate |
| `EasterEgg.Matcher.Init` | js/additional-features.js:215-217 | the cursor starts at 0 with no key seen |
| `EasterEgg.Matcher.KeyDown` | js/additional-features.js:219-229 | the cursor follows Step, and the result says whether activate was called, i.e. whether the keys seen so far end in a recognised code |

## Left out

- Timers are left out. The 15-second and 8-second `setInterval` auto-advance (js/additional-features.js:350, 444) is modelled only by the methods a tick calls.
- Event-listener registration and DOM creation are left out: creating the dot buttons, their labels, and the prev/next button wiring. The model keeps only the flags and the handlers' effects.
- A DOM element is reduced to its `active` class. No other class-list change is modelled.
- `ExperienceTabs.FirstIndexOf` searches the panels only. An element outside the panel list that carries the target id is not modelled. Neither is a tab without a `data-tab` attribute, which looks up the id "undefined" rather than the empty id.
- `CustomCarousel.Carousel.Init` assumes the carousel markup has its `.carousel-dots` container and its `.carousel-prev` and `.carousel-next` buttons. Without the dots container, init throws at js/additional-features.js:426, before the first dot is recorded. Then init has sized the window and registered the resize listener, but it has created no dots, rendered nothing, and registered no keyboard handler and no timer. When the container is present but a button is missing, the dot loop at :421-428 has already run: all the dots exist and each one has its click handler. Init then throws at :434 (no prev button) or :435 (no next button; the prev button keeps its handler). The first render, the keyboard handler and the timer are missing. The model does not capture either partial state.
- `AboutCarousel.Rotator.NextSlide` requires at least one slide, because the timer that calls it is only started when there is one. On an empty list the source's `%` would give NaN.
- The body of `activate` (animation, injected style, console message) is left out. `Matcher.KeyDown` only reports whether it was called.
- The back-to-top button, keyboard shortcuts, clipboard copy, lightbox, external-link tagging, viewport-height fix, analytics, console message and quick-navigation menu are left out. They are browser API calls and class toggling with no index state.
- The reading-time estimator is left out. It is disabled at start-up and depends on regular-expression splitting.
- js/modern-enhancements.js is not part of this model. It holds the preloader, smooth anchor scrolling, lazy loading, parallax, scroll reveal, an audio player, a debounced resize event with a reduced-motion flag, floating form labels, header shadow and hide-on-scroll classes, and a custom cursor that is never started. These are mostly driven by timers, observers and window metrics, or are plain click and blur class toggling, with no index state.
- contact.js is not part of this model: map construction and redirects.
