# Multi-slider, modelled in Dafny

A WordPress plugin that stores groups of slides ("sliders") in two database tables.
It offers the shortcode `[multi_slider id="<slug>"]`, which renders a slider's slides as markup.
A front-end script keeps four things on the same slide:
- a rotating carousel;
- a Swiper thumbnail strip;
- the highlighted entry of the navigation bar;
- the URL fragment `#truth<k>`.

The model has two parts.

- **Navigation** (`assets/js/multi-slider.js`). The `Navigator` class holds the handler state:
  - the one-shot `isFirstSet` guard;
  - whether the click and arrow handlers were bound;
  - the carousel item;
  - the Swiper index;
  - the fragment;
  - the `current` flags of the navigation entries.

  The handlers on it are `OnCycleTo`, `ClickNav`, `ArrowPrev`, `ArrowNext` and `SyncOnReload`. They are proved to produce exactly the states that the value-level functions `CycleBody`, `Clicked`, `PrevPressed`, `NextPressed` and `ReloadBody` compute. The constructor runs the ready handler and is proved to give `Load`. When the start-up call throws, the ready handler ends there; the model keeps that. The properties are proved about those functions.

  The carousel calls `onCycleTo` back, and the model makes those calls explicit:
  - once while it is built, which is the call that consumes the `isFirstSet` guard;
  - after a `set` that centres another item;
  - after every `next` and `prev` that moves it.

  Each call comes once the handler that caused it has returned. `JsNumber` models the arithmetic the handlers depend on:
  - `parseInt` returns NaN or an integer;
  - `|| 1` replaces NaN and 0 by 1;
  - `String.prototype.replace` with a string pattern replaces only the first occurrence.

- **Back end** (`includes/MultiSliderPlugin.php`). The `MultiSlider` class holds the two tables as sequences of rows. Its methods model:
  - the two insert handlers;
  - the two delete handlers;
  - `init`;
  - `render_slider_shortcode`.

  Each method is proved against a function on the tables (`SliderSubmitted`, `SlideSubmitted`, `SliderDeletionHandled`, `SlideDeletionHandled`, `Initialized`, `Shortcode`).
  - `SliderTables` models the row selection, the stable `ORDER BY sort_order`, the slug lookup and the key constraints.
  - `PhpNumber` models `intval` on strings.

The database, the request arrays and the WordPress functions the handlers call are parameters:
- nonce verification;
- the sanitisers and escapers;
- `wp_get_attachment_image_src`.

Files:
- `numerals.dfy`: digits and decimal numerals.
- `js_number.dfy`: `parseInt`, `|| 1` and the fragment.
- `navigation.dfy`: the front-end handlers.
- `tables.dfy`: the two tables.
- `php_number.dfy`: `intval`.
- `plugin.dfy`: the back-end handlers and the shortcode.

Facts about the code that the model keeps:
- **Deletions are not gated.** `handle_slider_deletion` and `handle_slide_deletion` check no capability and no nonce. They check only `action` and `id` in `$_GET`, and `init` runs them on every request.
- **Inserts are gated by their caller.** The insert handlers check the nonce and the submit button. Their only caller, `render_admin_page`, returns first unless `current_user_can('manage_options')` holds (`includes/MultiSliderPlugin.php` line 147).
- **A fragment that is not a numeral stops the script.** With a fragment such as `#comments`, `#truth` or `#truthfoo`, the start-up call reads NaN and builds the selector `:nth-child(NaN)` (line 25), which jQuery rejects. The error leaves `initializeCarousel()` (line 71) and ends the ready handler, so the click and arrow handlers (lines 74-97) are never bound and `syncOnReload` (line 110) never runs. Only dragging the carousel still works.
- **Fragments use positions.** Slides are addressed by their 1-based position (`#truth<k>`). There is no key column.

## Model

| member | source | states |
|---|---|---|
| Numerals.DigitRunIsMaximal | assets/js/multi-slider.js:18 | the digit run that `parseInt` reads holds only digits of the radix, and it stops at the first non-digit |
| Numerals.DigitRunOfDigits | assets/js/multi-slider.js:18 | a string made only of digits is read to its end |
| Numerals.ShowIsDigits | assets/js/multi-slider.js:32 | the decimal form of a number (`'truth' + currentSlide`) consists of decimal digits |
| Numerals.ValueOfShow | assets/js/multi-slider.js:32 | reading the decimal form of `n` back gives `n` |
| Numerals.ShowIsDigitRun | assets/js/multi-slider.js:32 | the whole decimal form of `n` is one digit run |
| Numerals.Show | assets/js/multi-slider.js:32 | the decimal form is never empty, and it starts with 0 only for 0 |
| Numerals.ShowInt | assets/js/multi-slider.js:32 | definition of the decimal form of an integer, with `-` in front of negatives |
| JsNumber.TrimStart | assets/js/multi-slider.js:18 | what `parseInt` keeps after skipping leading white space is a suffix of the input that does not start with white space |
| JsNumber.TrimStartDropsWhiteSpace | assets/js/multi-slider.js:18 | every character that `parseInt` skips is white space |
| JsNumber.ParseInt | assets/js/multi-slider.js:11 | definition of `parseInt` with no radix: skip white space, take an optional sign, read hexadecimal after `0x` and decimal otherwise, and give NaN when no digit is read |
| JsNumber.ParseMagnitude | assets/js/multi-slider.js:18 | definition of the unsigned part of `parseInt`: radix 16 after `0x` or `0X`, 10 otherwise; the longest digit run is read, and an empty run gives NaN |
| JsNumber.ShowNum | assets/js/multi-slider.js:32 | definition of `String(x)`: `NaN`, or the decimal form of the integer |
| JsNumber.OrOne | assets/js/multi-slider.js:82 | the fallback of the arrow and reload handlers is never 0: NaN and 0 give 1, and every other integer passes through |
| JsNumber.ParseIntOfShow | assets/js/multi-slider.js:18 | `parseInt` reads back every integer written in decimal, negative ones included |
| JsNumber.ParseIntOfNegative | assets/js/multi-slider.js:18 | `parseInt` of `-` followed by a numeral is the negated value |
| JsNumber.ParseIntOfNatural | assets/js/multi-slider.js:18 | `parseInt` of a numeral without a sign is its value |
| JsNumber.MagnitudeOfShow | assets/js/multi-slider.js:18 | the unsigned part of `parseInt` reads a decimal numeral as its value |
| JsNumber.ParseIntOfNonNumeral | assets/js/multi-slider.js:18 | an empty string, or one that starts with anything other than white space, a sign or a digit, parses to NaN |
| JsNumber.ReplaceLeadingPattern | assets/js/multi-slider.js:18 | `hash.replace('#truth', '')` on a fragment that starts with `#truth` takes just that prefix off |
| JsNumber.ReplaceFirst | assets/js/multi-slider.js:18 | definition of `replace` with a string pattern: only the first occurrence is replaced |
| JsNumber.FragmentFor | assets/js/multi-slider.js:32 | definition of the fragment after `window.location.hash = 'truth' + x`: `#truth` followed by `String(x)` |
| JsNumber.ParseFragment | assets/js/multi-slider.js:18 | definition: `parseInt(hash.replace('#truth', ''))` |
| JsNumber.PositionOrOne | assets/js/multi-slider.js:82 | definition of the position the arrow and reload handlers read: the parsed fragment, with NaN and 0 replaced by 1 |
| JsNumber.FirstSetPosition | assets/js/multi-slider.js:14-19 | definition of the position the first-set branch reads: 1 for an empty fragment, otherwise the parsed fragment with no fallback |
| JsNumber.FragmentRoundTrip | assets/js/multi-slider.js:18-32 | the fragment written for position k reads back as k in the first-set branch and in the parse, and through the fallback to 1 as k when k is not 0 |
| JsNumber.NonNumericFragment | assets/js/multi-slider.js:18 | `#truth` followed by a non-numeral parses to NaN, which the arrow and reload handlers read as 1 |
| JsNumber.EmptyFragment | assets/js/multi-slider.js:15-16 | with no fragment, the first-set branch uses 1, and the arrow and reload handlers read 1 |
| JsNumber.ZeroFragment | assets/js/multi-slider.js:82 | `#truth0` reads as 1 through the fallback to 1, but as 0 in the first-set branch |
| Navigation.Highlight | assets/js/multi-slider.js:25-26 | the highlight has one flag per navigation entry |
| Navigation.HighlightMarksExactly | assets/js/multi-slider.js:25-26 | after the add/remove pair with position k, entry i is current exactly when i + 1 = k |
| Navigation.Wrap | assets/js/multi-slider.js:84 | a carousel target always falls on an existing item |
| Navigation.WrapIsMod | assets/js/multi-slider.js:84 | wrapping a target is the remainder of its division by the number of items |
| Navigation.WrapOfNegative | assets/js/multi-slider.js:20 | target -1 (position 0 minus one) lands on the last item |
| Navigation.SetTarget | assets/js/multi-slider.js:20 | definition of the item `carousel('set', t)` centres: t wrapped onto the n items, with NaN read as 0. Without items the carousel stays put |
| Navigation.SyncBody | assets/js/multi-slider.js:24-32 | definition of lines 24-32 with position k: highlight entry k, send the Swiper strip to k - 1, write `#truth<k>`. With NaN the handler stops at line 25 |
| Navigation.CycleBody | assets/js/multi-slider.js:10-33 | the handler always leaves the guard disarmed and the handlers' binding as it was. Once the guard is disarmed it never moves the carousel |
| Navigation.Cycled | assets/js/multi-slider.js:10-33 | the carousel's call, together with the call that follows it when the handler moved the carousel, leaves the guard disarmed and the binding as it was |
| Navigation.Notify | assets/js/multi-slider.js:77 | definition of the carousel's call once the commanding handler has returned: it comes only if the centred item changed |
| Navigation.SetAndNotify | assets/js/multi-slider.js:77 | definition: `carousel('set', t)`, then the call if the carousel moved |
| Navigation.StepAndNotify | assets/js/multi-slider.js:86-95 | definition: `carousel('prev')` or `carousel('next')` wraps one step, then the call follows. With fewer than two slides neither moves the carousel |
| Navigation.Clicked | assets/js/multi-slider.js:74-78 | definition of a nav-link click: `set` to the parsed `name` minus one, once the handler is bound; no change otherwise |
| Navigation.PrevPressed | assets/js/multi-slider.js:81-88 | definition of `#arrowPrev`: `set` to the last item when the fragment reads 1, `prev` otherwise, once the handler is bound |
| Navigation.NextPressed | assets/js/multi-slider.js:90-97 | definition of `#arrowNext`: `set` to item 0 when the fragment reads n, `next` otherwise, once the handler is bound |
| Navigation.ReloadBody | assets/js/multi-slider.js:100-107 | definition of `syncOnReload`: with a non-empty fragment, both widgets go to the position read minus one. With an empty fragment nothing changes |
| Navigation.Swiped | assets/js/multi-slider.js:10 | definition of a drag onto another existing item: the carousel moves there and calls back |
| Navigation.Initial | assets/js/multi-slider.js:3-71 | definition of the page once both widgets are built: guard armed, no handler bound, both widgets on item 0, no entry highlighted |
| Navigation.Started | assets/js/multi-slider.js:71 | definition: building the carousel makes one `onCycleTo` call with the guard armed (none without items) |
| Navigation.Load | assets/js/multi-slider.js:1-111 | definition of the page after the ready handler: the start-up call; unless it threw, the bound handlers and `syncOnReload`; then the carousel's call if either command moved it off item 0 |
| Navigation.StartupThrows | assets/js/multi-slider.js:18-25 | definition: the start-up call throws exactly when there is a slide and the fragment reads NaN |
| Navigation.CycleThrows | assets/js/multi-slider.js:11-25 | definition: `onCycleTo` throws at line 25 only in the guarded branch, with a fragment that reads NaN |
| Navigation.Apply | assets/js/multi-slider.js:74-97 | definition of one user event: a nav-link click, an arrow press or a drag |
| Navigation.Run | assets/js/multi-slider.js:74-97 | definition of a sequence of user events, applied in order |
| Navigation.ApplyNeverRearms | assets/js/multi-slider.js:3 | no handler arms the guard again |
| Navigation.ApplyKeepsBound | assets/js/multi-slider.js:74-97 | no user event binds or unbinds the click and arrow handlers |
| Navigation.GuardConsumedOnce | assets/js/multi-slider.js:3 | over any sequence of events the guard is never re-armed, and it flips from armed to disarmed at most once, exactly when the run starts armed and ends disarmed |
| Navigation.LoadConsumesGuard | assets/js/multi-slider.js:3-22 | with at least one slide the start-up call consumes the guard, so no event after the load finds it armed. Without slides it stays armed |
| Navigation.RunKeepsBound | assets/js/multi-slider.js:74-97 | over any sequence of events, whether the handlers are bound stays as it was |
| Navigation.LoadBindsHandlers | assets/js/multi-slider.js:71-97 | the load binds the click and arrow handlers exactly when the start-up call does not throw, and they stay so for every sequence of events |
| Navigation.UnboundIgnoresNavigation | assets/js/multi-slider.js:74-97 | without bound handlers, a nav-link click and both arrow presses change nothing |
| Navigation.UnboundRunWithoutDrags | assets/js/multi-slider.js:74-97 | without bound handlers, any run of clicks and arrow presses changes nothing |
| Navigation.CycleToSyncs | assets/js/multi-slider.js:24-32 | once the guard is consumed, `onCycleTo` with item k leaves the carousel where it is and sets the fragment to `#truth<k>` and the Swiper strip to k - 1. Exactly entry k is current, and the arrows read k back |
| Navigation.CycledNormal | assets/js/multi-slider.js:24-32 | once the guard is consumed, the carousel's call for item c brings all four representations to c |
| Navigation.GuardedCall | assets/js/multi-slider.js:12-32 | the guarded call with the fragment at position p does not throw. It sends the carousel to (p - 1) mod n and the Swiper strip to p - 1, writes `#truth<p>`, highlights entry p and consumes the guard |
| Navigation.GuardedCallNaN | assets/js/multi-slider.js:18-25 | the guarded call with a non-numeric fragment throws. Before that it sends the carousel to item 0 and consumes the guard |
| Navigation.ClickNavSelects | assets/js/multi-slider.js:74-78 | once the guard is consumed and the handler is bound, clicking nav entry k centres item k - 1 from any state. If that moved the carousel everything follows it; otherwise nothing changes |
| Navigation.ClickNavIdempotent | assets/js/multi-slider.js:74-78 | clicking the same link twice in a row changes nothing the second time |
| Navigation.NextPressedMoves | assets/js/multi-slider.js:90-97 | from any state with the guard consumed and the handler bound: when the fragment reads n the carousel goes to item 0, otherwise to the next item (no move with one slide). Everything follows a move, and without one nothing changes |
| Navigation.ArrowNextMoves | assets/js/multi-slider.js:90-97 | from an agreeing state, `#arrowNext` moves to the next item and wraps from the last to the first; everything follows |
| Navigation.PrevPressedMoves | assets/js/multi-slider.js:81-88 | from any state with the guard consumed and the handler bound: when the fragment reads 1 the carousel goes to the last item, otherwise to the previous one (no move with one slide). Everything follows a move, and without one nothing changes |
| Navigation.ArrowPrevMoves | assets/js/multi-slider.js:81-88 | from an agreeing state, `#arrowPrev` moves to the previous item and wraps from the first to the last; everything follows |
| Navigation.NextOfFive | assets/js/multi-slider.js:90-97 | one next press on five slides from item c |
| Navigation.FiveNextPresses | assets/js/multi-slider.js:90-97 | five next presses from position 1 of five slides visit fragments 2, 3, 4, 5, 1 |
| Navigation.LoadWithoutFragment | assets/js/multi-slider.js:12-22 | a page loaded without a fragment shows the first slide everywhere, writes `#truth1`, consumes the guard and binds the handlers. Without slides the page stays as built, with the handlers bound |
| Navigation.LoadWithFragment | assets/js/multi-slider.js:12-22 | a page loaded at a fragment naming an existing slide k shows item k - 1 everywhere, agrees, has the guard consumed and the handlers bound |
| Navigation.LoadAtPosition | assets/js/multi-slider.js:12-22 | a page loaded at any position p other than 0 ends on the item c = (p - 1) mod n when c is not 0. When c is 0 the carousel never moved: the Swiper strip stays at p - 1 and entry p is highlighted |
| Navigation.LoadAtThirdOfFive | assets/js/multi-slider.js:100-110 | five slides loaded at `#truth3` put both widgets at index 2 |
| Navigation.LoadOneTurnPastEnd | assets/js/multi-slider.js:100-107 | five slides loaded at `#truth6` leave the carousel on item 0 and the Swiper strip at index 5, with no entry highlighted |
| Navigation.ArrowsAfterTurnPastEnd | assets/js/multi-slider.js:81-97 | after that load, whose fragment reads 6, `#arrowNext` brings everything to item 1 and `#arrowPrev` to item 4 |
| Navigation.LoadAtZero | assets/js/multi-slider.js:18-20 | a page loaded at a fragment that reads 0: with two slides or more the start-up move to the last item has begun, so the carousel reports item 0 and everything shows the first slide with `#truth1`. With one slide nothing moves, and the fragment stays `#truth0` with no entry highlighted |
| Navigation.LoadAtNaN | assets/js/multi-slider.js:18-25 | a page loaded at a non-numeric fragment throws at start-up. No handler is bound and `syncOnReload` never runs; both widgets stay at index 0, the fragment is kept, and no entry is highlighted |
| Navigation.LoadAtNonNumeric | assets/js/multi-slider.js:18-25 | the same for `#truth` followed by a non-numeral, such as `#truthfoo` |
| Navigation.NaNLoadLeavesOnlyDragging | assets/js/multi-slider.js:71-97 | after that load, clicks on nav links and arrows change nothing, while a drag onto another slide brings everything there |
| Navigation.FiveNextPressesAfterLoad | assets/js/multi-slider.js:90-110 | on five slides loaded without a fragment, five next presses visit fragments 2, 3, 4, 5, 1 |
| Navigation.Navigator.constructor | assets/js/multi-slider.js:1-110 | the ready handler builds both widgets and takes the start-up call. Unless that call threw, it binds the handlers and runs `syncOnReload`. The carousel's call follows; the page is then `Load(n, hash)` |
| Navigation.Navigator.CarouselSet | assets/js/multi-slider.js:20 | `carousel('set', t)` centres item `SetTarget(n, item, t)` and changes nothing else |
| Navigation.Navigator.MarkCurrent | assets/js/multi-slider.js:25-26 | the `current` flags become `Highlight(n, k)` |
| Navigation.Navigator.OnCycleTo | assets/js/multi-slider.js:10-33 | the handler's new state is `CycleBody` of the old one, and it completes exactly when it does not throw (`CycleThrows`) |
| Navigation.Navigator.CarouselCallsBack | assets/js/multi-slider.js:10-33 | the carousel's call, and the second call when the first moved it; the new state is `Cycled` of the old one |
| Navigation.Navigator.CarouselNotifies | assets/js/multi-slider.js:77 | the call once the handler has returned; the new state is `Notify` of the old one |
| Navigation.Navigator.ClickNav | assets/js/multi-slider.js:74-78 | the default action is prevented exactly when the handler is bound, and the new state is `Clicked` of the old one |
| Navigation.Navigator.CarouselStep | assets/js/multi-slider.js:86-95 | `carousel('prev')` or `carousel('next')` and the carousel's call; the new state is `StepAndNotify` of the old one |
| Navigation.Navigator.ArrowPrev | assets/js/multi-slider.js:81-88 | the new state is `PrevPressed` of the old one |
| Navigation.Navigator.ArrowNext | assets/js/multi-slider.js:90-97 | the new state is `NextPressed` of the old one |
| Navigation.Navigator.SyncOnReload | assets/js/multi-slider.js:100-107 | the new state is `ReloadBody` of the old one |
| Navigation.Navigator.Swipe | assets/js/multi-slider.js:10 | a drag onto another item runs the carousel's call for it; the new state is `Swiped` of the old one |
| PhpNumber.SkipBlanks | includes/MultiSliderPlugin.php:353 | what `intval` keeps after skipping white space is a suffix of its input that does not start with white space |
| PhpNumber.SkipBlanksDropsWhiteSpace | includes/MultiSliderPlugin.php:353 | every character that `intval` skips is white space |
| PhpNumber.Saturate | includes/MultiSliderPlugin.php:353 | values within the 64-bit range are kept, and values outside it are clamped to the nearest end |
| PhpNumber.LeadingDecimal | includes/MultiSliderPlugin.php:353 | definition: the value of the longest run of decimal digits at the start, 0 for none |
| PhpNumber.IntVal | includes/MultiSliderPlugin.php:353 | `intval` always gives a 64-bit integer |
| PhpNumber.LeadingDecimalOfShow | includes/MultiSliderPlugin.php:325 | the digits of a printed id read back as that id |
| PhpNumber.IntValOfShow | includes/MultiSliderPlugin.php:325 | `intval` reads back every 64-bit integer that `intval(...)` printed into a link |
| PhpNumber.IntValOfNegative | includes/MultiSliderPlugin.php:353 | `intval` of a negative numeral is its value |
| PhpNumber.IntValOfNatural | includes/MultiSliderPlugin.php:353 | `intval` of a non-negative numeral within range is its value |
| PhpNumber.IntValSaturates | includes/MultiSliderPlugin.php:353 | a numeral beyond the 64-bit range reads as `PHP_INT_MAX` |
| PhpNumber.IntValOfNonNumeric | includes/MultiSliderPlugin.php:279 | a string that starts with no white space, sign or digit reads as 0 |
| SliderTables.Select | includes/MultiSliderPlugin.php:415 | a WHERE clause never returns more rows than the table has |
| SliderTables.SelectCons | includes/MultiSliderPlugin.php:415 | one step of the row filter |
| SliderTables.SelectMembers | includes/MultiSliderPlugin.php:415 | the rows selected are exactly the rows that satisfy the condition |
| SliderTables.SelectAppend | includes/MultiSliderPlugin.php:428-444 | filtering a concatenation is the concatenation of the filtered parts |
| SliderTables.SelectAppendStep | includes/MultiSliderPlugin.php:428-444 | the inductive step of `SelectAppend` |
| SliderTables.SelectSplits | includes/MultiSliderPlugin.php:356-359 | the slides of slider j together with the other slides are the whole table as a multiset |
| SliderTables.SelectCommutes | includes/MultiSliderPlugin.php:415 | two filters can be applied in either order |
| SliderTables.SelectKeepsAll | includes/MultiSliderPlugin.php:379-382 | a condition that every row meets keeps the table as it is |
| SliderTables.SelectKeepsNone | includes/MultiSliderPlugin.php:428-430 | a condition that no row meets selects nothing |
| SliderTables.DeleteByUniqueId | includes/MultiSliderPlugin.php:379-382 | with unique ids, deleting by row i's id removes exactly row i and keeps the others in order |
| SliderTables.SplitAt | includes/MultiSliderPlugin.php:379-382 | a table is the rows before i, row i and the rows after it |
| SliderTables.KeepsRowsBefore | includes/MultiSliderPlugin.php:379-382 | the rows before i survive the deletion of row i's id |
| SliderTables.KeepsRowsAfter | includes/MultiSliderPlugin.php:379-382 | the rows after i survive the deletion of row i's id |
| SliderTables.SelectKeepsIdAbsent | includes/MultiSliderPlugin.php:80-89 | filtering cannot bring back an absent id |
| SliderTables.UniqueCons | includes/MultiSliderPlugin.php:80-89 | adding a row with a fresh id keeps the ids unique |
| SliderTables.SelectKeepsIdsUnique | includes/MultiSliderPlugin.php:80-89 | deleting rows keeps the slide ids unique |
| SliderTables.SortedCons | includes/MultiSliderPlugin.php:415 | a row no later in order than the sorted rest stays sorted in front |
| SliderTables.SortedTail | includes/MultiSliderPlugin.php:415 | the rest of a sorted table is sorted and no earlier in order than its head |
| SliderTables.InsertByOrder | includes/MultiSliderPlugin.php:415 | inserting into the ordering adds exactly one row |
| SliderTables.SortByOrder | includes/MultiSliderPlugin.php:415 | `ORDER BY sort_order` returns as many rows as it was given |
| SliderTables.InsertIsPermutation | includes/MultiSliderPlugin.php:415 | the insert adds exactly the one row as a multiset |
| SliderTables.SortIsPermutation | includes/MultiSliderPlugin.php:415 | `ORDER BY sort_order` neither loses nor duplicates a row |
| SliderTables.InsertKeepsOrderAtLeast | includes/MultiSliderPlugin.php:415 | the insert keeps a lower bound on the sort order |
| SliderTables.InsertKeepsSorted | includes/MultiSliderPlugin.php:415 | inserting into sorted rows keeps them sorted |
| SliderTables.SortIsSorted | includes/MultiSliderPlugin.php:415 | the result has non-decreasing `sort_order` |
| SliderTables.InsertIsStable | includes/MultiSliderPlugin.php:415 | the insert keeps the table order among rows of equal sort order |
| SliderTables.SortIsStable | includes/MultiSliderPlugin.php:415 | rows with the same sort order come out in table order |
| SliderTables.SelectKeepsOrderAtLeast | includes/MultiSliderPlugin.php:430 | skipping rows keeps a lower bound on the sort order |
| SliderTables.SelectKeepsSorted | includes/MultiSliderPlugin.php:430 | skipping rows keeps sorted rows sorted |
| SliderTables.FindBySlug | includes/MultiSliderPlugin.php:402-407 | the row found has the slug, and there is none exactly when no row has the slug |
| SliderTables.DeleteSliderRow | includes/MultiSliderPlugin.php:362-365 | deleting rows never adds any |
| SliderTables.DeleteSliderMembers | includes/MultiSliderPlugin.php:362-365 | the sliders left are exactly those with another id |
| SliderTables.DeleteSliderKeepsKeysFree | includes/MultiSliderPlugin.php:70-75 | deleting sliders keeps a row's keys free |
| SliderTables.DeleteSliderKeepsKeysUnique | includes/MultiSliderPlugin.php:70-75 | deleting sliders keeps the id and slug keys unique |
| SliderTables.InsertSlider | includes/MultiSliderPlugin.php:263 | the insert either leaves the table as it was or appends the row; it refuses a slug over 100 or a title over 255 characters (the `VARCHAR` widths of lines 71-72), and a clashing id or slug |
| SliderTables.InsertSliderKeepsKeysUnique | includes/MultiSliderPlugin.php:263 | the insert keeps the keys unique, and it appends exactly when the slug has at most 100 and the title at most 255 characters and the row's id and slug are free |
| SliderTables.InsertSlide | includes/MultiSliderPlugin.php:287 | the insert either leaves the table as it was or appends the row; it refuses a title, link or alt text over 255 characters (the `VARCHAR(255)` columns of lines 82-86), and a taken id |
| SliderTables.InsertSlideKeepsIdsUnique | includes/MultiSliderPlugin.php:287 | the insert keeps the ids unique, and it appends exactly when the title, link and alt text have at most 255 characters each and the id is free |
| MultiSliderPlugin.SliderFormAccepted | includes/MultiSliderPlugin.php:250-254 | definition of the slider form guard: the nonce field is present and verifies for `multi_slider_create_nonce`, and `create_slider` was sent |
| MultiSliderPlugin.SliderFromForm | includes/MultiSliderPlugin.php:257-261 | definition of the slider row built from the sanitised title, slug and description |
| MultiSliderPlugin.SlideFormAccepted | includes/MultiSliderPlugin.php:271-275 | definition of the slide form guard, with `multi_slide_create_nonce` and `create_slide` |
| MultiSliderPlugin.SlideFromForm | includes/MultiSliderPlugin.php:278-285 | definition of the slide row: `intval` of the slider and image ids, the sanitised text fields and sort order 0 |
| MultiSliderPlugin.SliderSubmitted | includes/MultiSliderPlugin.php:249-265 | definition of `handle_slider_submission`: on an accepted form the row is inserted, otherwise nothing changes |
| MultiSliderPlugin.Param | includes/MultiSliderPlugin.php:257-261 | definition of `$_POST[key]` as the sanitisers and `intval` receive it: a missing key reads as `''` |
| MultiSliderPlugin.SlideSubmitted | includes/MultiSliderPlugin.php:270-289 | definition of `handle_slide_submission` |
| MultiSliderPlugin.SliderInsertGated | includes/MultiSliderPlugin.php:249-265 | a slider is appended exactly when the nonce verifies, `create_slider` was sent, the slug and title fit their columns and the keys are free. The slides table never changes, and without those conditions nothing changes |
| MultiSliderPlugin.SlideInsertGated | includes/MultiSliderPlugin.php:270-289 | a slide is appended exactly when the nonce verifies, `create_slide` was sent, the title, link and alt text fit their columns and the id is free. Otherwise nothing changes |
| MultiSliderPlugin.NoNonceNoInsert | includes/MultiSliderPlugin.php:250-253 | a request without a nonce field inserts nothing |
| MultiSliderPlugin.AsksFor | includes/MultiSliderPlugin.php:352 | definition of the deletion guard: `action` is exactly the action named and an `id` is given (also line 375) |
| MultiSliderPlugin.DeleteSliderCascade | includes/MultiSliderPlugin.php:353-365 | definition: first the slides whose `slider_id` is the id, then the slider row |
| MultiSliderPlugin.DeleteSlide | includes/MultiSliderPlugin.php:376-382 | definition: delete the slide rows with the id |
| MultiSliderPlugin.SliderDeletionHandled | includes/MultiSliderPlugin.php:349-371 | definition of `handle_slider_deletion` |
| MultiSliderPlugin.SlideDeletionHandled | includes/MultiSliderPlugin.php:372-388 | definition of `handle_slide_deletion` |
| MultiSliderPlugin.Initialized | includes/MultiSliderPlugin.php:54-59 | definition of `init` without the table creation: the slide deletion runs only if the slider deletion did not exit |
| MultiSliderPlugin.CascadeDeletesExactly | includes/MultiSliderPlugin.php:349-371 | the sliders left are exactly those with another id, and the slides left are exactly those of other sliders. The slides removed together with the slides left are the whole table |
| MultiSliderPlugin.CascadeKeepsOtherSliders | includes/MultiSliderPlugin.php:356-359 | every other slider keeps its slides, in content and order |
| MultiSliderPlugin.SlideDeleteRemovesOne | includes/MultiSliderPlugin.php:372-388 | deleting slide row i's id removes that row alone and keeps the sliders table |
| MultiSliderPlugin.SlideDeleteOfUnknownId | includes/MultiSliderPlugin.php:379-382 | deleting an id that no slide has changes nothing |
| MultiSliderPlugin.DeleteLinksRoundTrip | includes/MultiSliderPlugin.php:325 | the delete links printed on the admin page (lines 325, 339) reach the handlers with the printed id |
| MultiSliderPlugin.OtherRequestsDeleteNothing | includes/MultiSliderPlugin.php:54-59 | a request that asks for no deletion leaves both tables as they are |
| MultiSliderPlugin.SliderSubmissionKeepsConsistent | includes/MultiSliderPlugin.php:249-265 | the slider insert handler keeps the key constraints |
| MultiSliderPlugin.SlideSubmissionKeepsConsistent | includes/MultiSliderPlugin.php:270-289 | the slide insert handler keeps the key constraints |
| MultiSliderPlugin.DeletionsKeepConsistent | includes/MultiSliderPlugin.php:349-388 | the deletion pass keeps the key constraints |
| MultiSliderPlugin.RenderAll | includes/MultiSliderPlugin.php:428-444 | each row gives one slide of markup |
| MultiSliderPlugin.RenderAllAt | includes/MultiSliderPlugin.php:432-443 | slide i of the markup is rendered from row i |
| MultiSliderPlugin.RenderAllAppend | includes/MultiSliderPlugin.php:428-444 | the markup of a concatenation is the concatenation of the markups |
| MultiSliderPlugin.RenderStep | includes/MultiSliderPlugin.php:428-444 | one loop turn renders the row when it has an image and skips it (`continue`) otherwise |
| MultiSliderPlugin.SlideRows | includes/MultiSliderPlugin.php:413-418 | definition of the slide query: the slider's rows, sorted by `sort_order` |
| MultiSliderPlugin.ShownSlides | includes/MultiSliderPlugin.php:428-430 | definition of the rows the loop renders: those with a large image |
| MultiSliderPlugin.Shortcode | includes/MultiSliderPlugin.php:396-448 | definition of `render_slider_shortcode`: `''` for an unknown slug or a slider without rows, otherwise the wrapper around the shown rows |
| MultiSliderPlugin.ShortcodeSlug | includes/MultiSliderPlugin.php:397-399 | definition of `shortcode_atts(['id' => ''], $atts)['id']`: the `id` attribute, or `''` when it is missing |
| MultiSliderPlugin.RenderSlide | includes/MultiSliderPlugin.php:432-443 | definition of one slide's markup: link through `esc_url`, image source through `esc_url`, alt text through `esc_attr`, title and description through `esc_html` |
| MultiSliderPlugin.ImageUrl | includes/MultiSliderPlugin.php:429-435 | definition of `$image[0]`, the URL of the row's large image |
| MultiSliderPlugin.SlideRowsEmpty | includes/MultiSliderPlugin.php:413-422 | the slide query returns nothing exactly when the slider has no slide |
| MultiSliderPlugin.ShortcodeBlankExactly | includes/MultiSliderPlugin.php:409-422 | the shortcode is `''` exactly when no slider has the slug, or the slider found has no slide rows |
| MultiSliderPlugin.UnknownSlugIsBlank | includes/MultiSliderPlugin.php:409-411 | an unknown slug gives `''` |
| MultiSliderPlugin.NoImageGivesEmptyWrapper | includes/MultiSliderPlugin.php:420-445 | a slider with slides but no images gives the wrapper with no slides, not `''` |
| MultiSliderPlugin.ShortcodeRendersShown | includes/MultiSliderPlugin.php:427-445 | the wrapper carries the escaped slug, and its slide i is the markup of the i-th shown row with that row's large image URL |
| MultiSliderPlugin.ShownSlidesPermutation | includes/MultiSliderPlugin.php:413-444 | the rendered rows are, as a multiset, the slider's rows that have an image |
| MultiSliderPlugin.ShownSlidesExactly | includes/MultiSliderPlugin.php:413-444 | a row is rendered exactly when it belongs to the slider and has an image |
| MultiSliderPlugin.ShownSlidesSorted | includes/MultiSliderPlugin.php:415 | the rendered rows come in non-decreasing `sort_order` |
| MultiSliderPlugin.ShownSlidesStable | includes/MultiSliderPlugin.php:415 | rendered rows with the same sort order keep their table order |
| MultiSliderPlugin.SortSelectPermutation | includes/MultiSliderPlugin.php:415-430 | skipping rows after the sort keeps the same multiset as skipping them before it |
| MultiSliderPlugin.InsertSelectPermutation | includes/MultiSliderPlugin.php:415-430 | the same for one insertion step |
| MultiSliderPlugin.DeletedSliderRendersBlank | includes/MultiSliderPlugin.php:349-411 | once a slider is deleted, its slug renders `''` |
| MultiSliderPlugin.DeletedSlideNotShown | includes/MultiSliderPlugin.php:372-444 | once a slide is deleted, no slider shows it |
| MultiSliderPlugin.MultiSlider.constructor | includes/MultiSliderPlugin.php:64-96 | the tables as the plugin finds them, with their key constraints |
| MultiSliderPlugin.MultiSlider.HandleSliderSubmission | includes/MultiSliderPlugin.php:249-265 | the new tables are `SliderSubmitted` of the old ones, and the key constraints are kept |
| MultiSliderPlugin.MultiSlider.HandleSlideSubmission | includes/MultiSliderPlugin.php:270-289 | the new tables are `SlideSubmitted` of the old ones, and the key constraints are kept |
| MultiSliderPlugin.MultiSlider.HandleSliderDeletion | includes/MultiSliderPlugin.php:349-371 | the new tables are `SliderDeletionHandled` of the old ones, and it exits exactly when the request asks to delete a slider |
| MultiSliderPlugin.MultiSlider.HandleSlideDeletion | includes/MultiSliderPlugin.php:372-388 | the new tables are `SlideDeletionHandled` of the old ones, and it exits exactly when the request asks to delete a slide |
| MultiSliderPlugin.MultiSlider.Init | includes/MultiSliderPlugin.php:54-59 | the new tables are `Initialized` of the old ones |
| MultiSliderPlugin.MultiSlider.RenderSliderShortcode | includes/MultiSliderPlugin.php:396-448 | the loop returns `Shortcode` of the tables and changes nothing |

## Left out

- Carousel and Swiper. The Materialize carousel and Swiper are not in the source, and the source names no carousel version. The model follows Materialize 1.0 in the points the handlers rely on:
  - `set` centres item t mod n and reads NaN as 0;
  - `next` and `prev` step with wrap-around; with a single slide the carousel does not wrap, so they do nothing;
  - building the carousel makes one `onCycleTo` call for item 0, while the guard is still armed, and the carousel has bound its own drag handlers by then;
  - `onCycleTo` is called after a `set` that centres another item, and after every `next` and `prev` that moves;
  - each call comes once the handler that caused it has returned, and reports the item finally centred. When the ready handler commands two moves, the carousel reports if either moved it off item 0 (`Load`).

  Animation, and the calls for the items passed on the way, are not modelled. For `LoadAtZero` this means that the one call for item 1 on the way back to item 0 is not modelled; the final call for item 0 overwrites everything it wrote.
- Single slide. With one slide, Materialize's `set(1)` moves its unwrapped position one step and calls back. `SetTarget` wraps 1 onto item 0 and models no move.
- Item names. The `name` of every carousel item and nav link is taken to be its 1-based position. The markup that sets them is not in the source.
- JavaScript numbers. Positions are exact integers of any size. Above 2^53 `parseInt` rounds, and from 10^21 on `'truth' + k` is written in exponent form; `ShowInt`, `ParseIntOfShow` and `FragmentRoundTrip` do not model either.
- jQuery and NaN. jQuery rejects the selector `:nth-child(NaN)`. The model stops the handler at that point. Only the start-up call can build that selector; for it, the model also stops the ready handler (`StartupThrows`). The exception value and its report on the console are not modelled.
- Markup and escaping. The HTML text, output buffering and the escaping and sanitising filters are opaque parameters. The markup is modelled as its fields.
- Slug comparison. It is exact. MySQL collation (case and trailing-space folding) is not modelled.
- Sort ties. `ORDER BY sort_order` ties are taken in table order. MySQL does not promise this.
- Column widths. Lengths are counted in characters, as wpdb does for these columns; the `description` TEXT limit of 65535 bytes is not modelled, because the model has no byte encoding. A database that accepts the row and truncates the value is not modelled: wpdb refuses an over-long value before any query is sent.
- Keys and ids. The FOREIGN KEY, AUTO_INCREMENT and the `mediumint(9)` range are left out. The new id is a parameter, and the slide's `slider_id` is not checked against the sliders table.
- `intval` forms. Exponent forms, non-string arguments and arrays are not modelled. Nor is the behaviour on 32-bit builds.
- Admin screens. `render_admin_page` is not modelled, so neither is its `manage_options` check in front of the insert handlers. `render_existing_sliders` and the admin menu are not modelled either. The printed delete links appear only as `DeleteLinksRoundTrip`.
- Setup. Table creation (`create_database_tables`), script enqueueing, the admin menu, `get_instance`, the widget registration, `wp_redirect` and `exit` are left out. The `exit` is modelled only as the `exits` result that stops `init`.
- Other scripts. The plugin bootstrap file, `admin.js` and the backup template are not part of this model.
- Swiper position. The strip's position is the index last passed to `slideTo`, without clamping.
