# Kaleo-For-All dashboard script, modelled in Dafny

This project models the stateful and rule-based parts of the dashboard page
script `cte/script.js`:

- the **project carousel** (`ProjectCarousel`): a focus index over a fixed
  list of project cards. The next button, the ArrowRight key and horizontal
  swipes step it. After every step each card's `data-index` attribute is set
  to the card's distance forward from the focused card;
- the **day-of-month suffix** used by the date picker (`getDaySuffix`);
- the **user filters** (`filterUsers`): a role select, a status select and
  a search box. They hide or show the user cards and the user table rows;
- the **exclusive "active" highlighting** of the view-toggle buttons and of
  the sidebar navigation items, and the card/list panel switch;
- the **tasks-table checkboxes**: the select-all master box and
  click-to-toggle rows.

Modules, one file each:

| file | module | contents |
|---|---|---|
| `js.dfy` | `Js` | `Option` for missing DOM handles/attributes; `JsRem`, JavaScript's truncating `%` |
| `carousel.dfy` | `Carousel` | index arithmetic; the `data-index` tags; the event machine as values (`Step`, `Run`); the `ProjectCarousel` class; the bootstrap guard |
| `day_suffix.dfy` | `DaySuffix` | `GetDaySuffix` and an independent English-ordinal reference |
| `user_filters.dfy` | `UserFilters` | the match predicate, `includes`, ASCII `toLowerCase`, the in-place filter pass |
| `selection.dfy` | `Selection` | exclusive `active` flags, nav clicks, the `ViewToggle` class |
| `task_table.dfy` | `TaskTable` | select-all and row-click checkbox updates |

The carousel follows the code's structure. The class `Carousel.ProjectCarousel`
holds the real fields: `currentIndex`, the touch variables `startX`,
`currentX` and `isDragging`, and the host-owned array of card `data-index`
values, which `UpdateCarousel` rewrites in place. Each event method is
proved against the pure transition function `Carousel.Step`. The lemmas
about sequences of events are stated over `Carousel.Run`.

Inputs the script reads from the browser are parameters here:
- the touch coordinate `clientX`;
- whether the carousel is in view (from `getBoundingClientRect`);
- whether the page has a `#carouselNext` button, a card panel or a list panel;
- the values of the filter controls, each `None` when the control is missing;
- what a row click landed on.

Two behaviours of the code are worth stating on their own:
- `touchstart` (`cte/script.js:27-30`) does not reset `currentX`. So a touch
  start followed directly by a touch end compares against the previous
  gesture's last position, or 0 before any move. See
  `Carousel.TapUsesStaleCurrentX`.
- The script builds a carousel only when the container exists and there is
  at least one card (`cte/script.js:306-308`). The model therefore requires
  `1 <= cards.Length`, and `Carousel.Boot` states the guard.

## Model

| member | source | states |
|---|---|---|
| `Js.JsRem` | cte/script.js:53 | JavaScript `%` with a positive divisor: the result has the dividend's sign, is smaller than the divisor in magnitude, and differs from the dividend by a multiple of the divisor |
| `Js.JsRemBelowTwice` | cte/script.js:64 | on a dividend in `[0, 2n)` the remainder is the dividend, or the dividend minus `n` |
| `Carousel.NextIndex` | cte/script.js:52-55 | `next()` keeps the index in `[0, n)` and moves it to `i + 1`, wrapping from the last card to 0 |
| `Carousel.PrevIndex` | cte/script.js:57-60 | `prev()` keeps the index in `[0, n)` and moves it to `i - 1`, wrapping from 0 to the last card |
| `Carousel.NextPrevRoundTrip` | cte/script.js:52-60 | `prev` after `next`, and `next` after `prev`, restore the index |
| `Carousel.NextWrapsAround` | cte/script.js:53 | with 3 cards and index 2, `next()` gives 0 |
| `Carousel.RelativeIndex` | cte/script.js:64 | card `k`'s tag is in `[0, n)`, is `k - current` or `k - current + n`, and stepping forward that many places from the focus reaches card `k` |
| `Carousel.Tags` | cte/script.js:62-67 | one tag per card |
| `Carousel.Range` | cte/script.js:11-14 | the list `0 .. n-1` |
| `Carousel.TagsArePermutation` | cte/script.js:62-67 | the tags are `0 .. n-1` rotated; they are a permutation of `0 .. n-1`, pairwise distinct and in range; only the focused card has tag 0; the card `t` places forward has tag `t` |
| `Carousel.InitialTagsAreIdentity` | cte/script.js:6-14 | with index 0, card `k` gets tag `k` |
| `Carousel.SwipeOf` | cte/script.js:41-48 | a drag steps forward iff `startX - currentX > 50`, backward iff it is `< -50`, and not at all iff it is within `[-50, 50]` |
| `Carousel.Step` | cte/script.js:16-60 | every event (button click, touch start/move/end, key down) keeps the focus index in `[0, n)` |
| `Carousel.Run` | cte/script.js:32-38 | events are handled one at a time; any number of touch moves and touch ends arriving while no drag is in progress leave the whole state unchanged |
| `Carousel.RunKeepsIndexInRange` | cte/script.js:6 | no sequence of events, from any in-range index, takes the index out of `[0, n)` |
| `Carousel.RunAppend` | cte/script.js:16-49 | events are handled one after another: running `a + b` is running `a` and then `b` |
| `Carousel.StrayTouchIgnored` | cte/script.js:32-38 | touch move and touch end while not dragging change nothing |
| `Carousel.DragSteps` | cte/script.js:23-49 | start, move, end: the drag ends idle with `currentX` at the last move, and the index steps forward, back or not at all by the 50-pixel rule |
| `Carousel.ThresholdBoundary` | cte/script.js:42 | a drag from 100 to 51 does nothing; a drag from 100 to 49 steps forward once |
| `Carousel.SwipeLeftThenRight` | cte/script.js:41-48 | a 60-pixel left swipe then a 60-pixel right swipe return to the same card |
| `Carousel.TapUsesStaleCurrentX` | cte/script.js:27-41 | touch start then touch end, with no move, decides by `x - currentX` where `currentX` is left over from the previous gesture |
| `Carousel.KeyboardDispatch` | cte/script.js:332-340 | a key press never touches the gesture; the index steps forward iff the carousel is in view, the key is ArrowRight and the next button exists; otherwise (ArrowLeft included) it is unchanged |
| `Carousel.ProjectCarousel.constructor` | cte/script.js:3-14 | index 0, gesture variables 0/0/false, the object invariant holds, and card `k` carries tag `k` |
| `Carousel.ProjectCarousel.UpdateCarousel` | cte/script.js:62-67 | every card's `data-index` equals its relative position; only the card array changes |
| `Carousel.ProjectCarousel.Next` | cte/script.js:52-55 | index becomes `NextIndex` of the old one, tags re-rendered, gesture unchanged |
| `Carousel.ProjectCarousel.Prev` | cte/script.js:57-60 | index becomes `PrevIndex` of the old one, tags re-rendered, gesture unchanged |
| `Carousel.ProjectCarousel.TouchStart` | cte/script.js:27-30 | sets `startX` and `isDragging`; `currentX` and the index are untouched (as `Step`) |
| `Carousel.ProjectCarousel.TouchMove` | cte/script.js:32-35 | updates `currentX` only while dragging (as `Step`) |
| `Carousel.ProjectCarousel.TouchEnd` | cte/script.js:37-49 | ignored unless dragging; otherwise ends the drag and steps at most once (as `Step`), tags kept consistent |
| `Carousel.ProjectCarousel.KeyDown` | cte/script.js:324-341 | the document keydown handler behaves as `Step` on a `KeyDown` event |
| `Carousel.Boot` | cte/script.js:302-308 | a carousel is built iff the container exists and there is at least one card; the new carousel is focused on card 0 and valid; without one the cards are untouched |
| `DaySuffix.GetDaySuffix` | cte/script.js:143-151 | the result is one of st/nd/rd/th, and "th" for every day 4 to 20 |
| `DaySuffix.DaySuffixIsEnglish` | cte/script.js:143-151 | for every number 0 to 110, which covers every day of the month, the result is the English ordinal suffix (an independent rule on the last two digits) |
| `DaySuffix.DaySuffixExamples` | cte/script.js:144-149 | 1st 2nd 3rd 11th 12th 13th 21st 22nd 23rd 31st |
| `DaySuffix.DaySuffixDivergesAt111` | cte/script.js:144-149 | the rule gives "111st", where English says "111th"; days never reach it |
| `DaySuffix.LastDigits` | cte/script.js:145 | below 200, `d % 10` in JavaScript is the Euclidean remainder and `d % 100` is `d` or `d - 100` |
| `UserFilters.AsciiLower` | cte/script.js:211 | lower-casing keeps the length and maps every character through the ASCII lower-case map |
| `UserFilters.AsciiLowerIdempotent` | cte/script.js:211 | lower-casing twice equals lower-casing once |
| `UserFilters.Includes` | cte/script.js:223 | `includes` is never true of a needle longer than the string, and always true of a prefix of it |
| `UserFilters.IncludesIffOccurs` | cte/script.js:223 | `includes` is true iff the needle occurs at some position of the haystack |
| `UserFilters.IncludesEmpty` | cte/script.js:223 | the empty query is in every string |
| `UserFilters.IncludesPrefix` | cte/script.js:223 | if a query plus one character is found, the query is found |
| `UserFilters.LoweredText` | cte/script.js:218-219 | a missing name or e-mail element reads as `''`; a present one is lower-cased, with its length kept and no upper-case ASCII letter left (also rows, lines 237-238) |
| `UserFilters.ReadFilters` | cte/script.js:209-211 | the role and status filters are 'all' iff their select is missing or says 'all'; the search is empty iff the box is missing or empty; the search holds no upper-case ASCII letter |
| `UserFilters.RoleMatch` | cte/script.js:221 | 'all' accepts every item; an item without `data-role` is accepted by 'all' only (also rows, line 240) |
| `UserFilters.StatusMatch` | cte/script.js:222 | 'all' accepts every item; an item without `data-status` is accepted by 'all' only (also rows, line 241) |
| `UserFilters.SearchMatch` | cte/script.js:223 | the empty query accepts every item; a non-empty query accepted by an item is no longer than its lower-cased name or e-mail (also rows, line 242) |
| `UserFilters.Visible` | cte/script.js:225 | with filters 'all', 'all', '' every item is shown; a shown item has the role and status attributes that a non-'all' filter asks about (also rows, line 244) |
| `UserFilters.VisibleIff` | cte/script.js:221-225 | an item is visible iff: the role filter is 'all' or equals its present role; the status filter is 'all' or equals its present status; and the query is empty or occurs in its lower-cased name or e-mail |
| `UserFilters.MissingControlsShowEverything` | cte/script.js:209-211 | with every filter control missing ('all', 'all', ''), every item is visible |
| `UserFilters.LongerQueryHidesMore` | cte/script.js:223 | typing one more search character never shows an item the shorter query hid |
| `UserFilters.SearchIgnoresCase` | cte/script.js:211 | lower-casing the query before typing it makes no difference |
| `UserFilters.ApplyFilter` | cte/script.js:215-229 | after the pass, item `k` is hidden iff it is not `Visible` |
| `UserFilters.FilterUsers` | cte/script.js:208-249 | cards and table rows are filtered by the same filter values read from the controls |
| `Selection.Exclusive` | cte/script.js:79-81 | one flag per member |
| `Selection.NoneSet` | cte/script.js:79 | a list with no flag set counts 0 |
| `Selection.OnlyOneSet` | cte/script.js:79-81 | a list whose only set flag is at `k` counts exactly 1 |
| `Selection.ExclusiveHasOneActive` | cte/script.js:79-81 | after a click exactly one member is active, and it is the clicked one |
| `Selection.SetActive` | cte/script.js:79-81 | the active flags become `Exclusive(n, clicked)` |
| `Selection.NavClick` | cte/script.js:263-271 | a nav click leaves exactly the clicked item active |
| `Selection.ViewToggle.constructor` | cte/script.js:71-74 | the buttons, their `data-view` values and the panels are recorded, and no panel display has been set |
| `Selection.ViewToggle.Click` | cte/script.js:76-94 | the clicked button alone becomes active. "card" shows the card panel and hides the list panel; "list" does the reverse; missing panels are skipped; any other view changes no panel |
| `TaskTable.AllSetTo` | cte/script.js:183-185 | one value per checkbox |
| `TaskTable.AfterRowClick` | cte/script.js:192-196 | a row click keeps the number of checkboxes |
| `TaskTable.RowClickEffect` | cte/script.js:192-196 | a row click flips that row's checkbox iff the click was not on the checkbox or an action button and the row has a checkbox; no other checkbox changes |
| `TaskTable.RowClickTwiceRestores` | cte/script.js:192-196 | two identical row clicks restore every checkbox |
| `TaskTable.SelectAllThenRowClick` | cte/script.js:180-196 | select-all on, then a click on row `k`: exactly row `k` is unchecked |
| `TaskTable.SelectAll` | cte/script.js:180-187 | every checkbox is set to the master's value |
| `TaskTable.RowClick` | cte/script.js:189-199 | the checkboxes become `AfterRowClick` of the old ones |

## Left out

- Event-listener registration and `DOMContentLoaded` bootstrapping are not modelled as such. The handlers are methods that callers invoke.
- The in-view test (`getBoundingClientRect` against `window.innerHeight`) is not modelled. It is the boolean parameter `inView`.
- A click on the next button is modelled by the `NextClick` event. The transition function does not check `hasNextButton` for it, because the click listener exists only when the button does. So lemmas over arbitrary event sequences also cover clicks that a page without the button cannot produce.
- The keydown handler's early return when there is no `.carousel-container` is not modelled. A `ProjectCarousel` only exists when the container does.
- Touch coordinates are exact reals. JavaScript double rounding of `startX - currentX` is not modelled.
- Only the first touch point (`touches[0]`) is read.
- `toLowerCase` is modelled on ASCII letters only. Unicode case mapping, which can change a string's length, is left out.
- `UserFilters.ApplyFilter` writes one `hidden` flag per item. It stands both for the `hidden` class on cards and for `display: none` on rows.
- `Selection.NavClick` does not model the scrolling to `data-target`, the header-height offset, `preventDefault` or the two-second highlight. These are browser layout and timer effects.
- `TaskTable.RowClick` covers only the script's handler. The browser's own toggling of a checkbox that is clicked directly is not modelled.
- Select-all and row clicks are modelled on one shared array of checkbox states. Each row names at most one checkbox in it (`None` when the row has none).
- The search box handler (`setupSearch`) is not modelled. It only logs the query.
- The date picker's reading of the current date and its text formatting are not modelled; only `getDaySuffix` is.
- The chart hover effects are not modelled. They only change styles.
- `script.js` and `Kaleo-For-All-main/script.js` are not part of this model. They hold GSAP animations, scroll listeners, `IntersectionObserver` callbacks and timed counters, all driven by layout, timers or floating point.
