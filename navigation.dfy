/** The slide navigation of the front end (assets/js/multi-slider.js): one carousel, one
    Swiper thumbnail strip and the URL fragment, kept on the same slide by the carousel's
    `onCycleTo` callback, the nav-link click handler, the two arrow handlers and the
    reload pass.

    The carousel widget itself (Materialize's `carousel`) is not in the source; the model
    follows what its version 1.0 does, only as far as the handlers rely on it, and says so
    where it is used:
    - it shows `n` items; `carousel('set', t)` centres item `t` modulo `n` (the carousel
      wraps around) and reads a NaN `t` as 0; `carousel('next')` and `carousel('prev')`
      centre the neighbouring item, except that a carousel with fewer than two items does
      not wrap and so does not move for them;
    - it calls `onCycleTo` with the centred item, whose `name` is its 1-based position:
      once while it is built (item 0 is centred then), whenever `set` centres another item,
      and after every `next` and `prev` that moves it, since it counts its position
      without wrapping;
    - a call caused by a move comes once the handler that commanded the move has returned,
      and reports the item centred then; the carousel's calls for the items it passes on
      the way are not modelled.
    An exception raised inside `onCycleTo` leaves the function that made the carousel call
    it. The Swiper strip is modelled by the index last passed to `slideTo`. */
module Navigation {
  import opened Numerals
  import opened JsNumber

  /** The navigation state: the one-shot guard, whether the ready handler reached lines
      74-97 and bound the click and arrow handlers, the centred carousel item (0-based),
      the index last passed to `swiper.slideTo` (0-based), the fragment as
      `window.location.hash` reads it, and which nav entries carry the class `current`. */
  datatype Nav = Nav(isFirstSet: bool, bound: bool, carousel: int, swiper: int, hash: string, current: seq<bool>)

  /** Nav highlight after lines 25-26 ran with position `k`: exactly entry `k` (1-based). */
  function Highlight(n: nat, k: int): (h: seq<bool>)
    ensures |h| == n
  {
    if n == 0 then [] else Highlight(n - 1, k) + [n == k]
  }

  /** Entry i (0-based) is current exactly when it is entry k (1-based); with k = 0 no
      entry is. */
  lemma {:induction false} HighlightMarksExactly(n: nat, k: int)
    ensures forall i :: 0 <= i < n ==> (Highlight(n, k)[i] <==> i + 1 == k)
  {
    if n > 0 {
      HighlightMarksExactly(n - 1, k);
      assert forall i :: 0 <= i < n - 1 ==> Highlight(n, k)[i] == Highlight(n - 1, k)[i];
    }
  }

  /** Item `t` of a carousel of `n` items that wraps around: whole turns of `n` items are
      added or taken away until the index falls on an item. */
  function Wrap(t: int, n: nat): (r: int)
    requires n > 0
    ensures 0 <= r < n
    decreases if t < 0 then 1 else 0, if t < 0 then -t else t
  {
    if t < 0 then Wrap(t + n, n) else if t < n then t else Wrap(t - n, n)
  }

  /** Wrapping is the remainder of the division by n. */
  lemma {:induction false} WrapIsMod(t: int, n: nat)
    requires n > 0
    ensures Wrap(t, n) == t % n
    decreases if t < 0 then 1 else 0, if t < 0 then -t else t
  {
    if t < 0 {
      WrapIsMod(t + n, n);
      ModOfTurn(t, n);
    } else if t < n {
      ModOfDecomposition(t, n, 0, t);
    } else {
      WrapIsMod(t - n, n);
      ModOfTurn(t - n, n);
    }
  }

  lemma ModOfTurn(t: int, n: nat)
    requires n > 0
    ensures (t + n) % n == t % n
  {
    var q, r := t / n, t % n;
    assert t == n * q + r;
    assert n * (q + 1) == n * q + n;
    ModOfDecomposition(t + n, n, q + 1, r);
  }

  lemma ModOfDecomposition(t: int, n: nat, q: int, r: int)
    requires n > 0 && 0 <= r < n && t == n * q + r
    ensures t % n == r
  {
    var q', r' := t / n, t % n;
    assert n * (q - q') == r' - r;
    NoWholeTurn(n, q - q');
  }

  lemma NoWholeTurn(n: nat, d: int)
    requires n > 0 && -(n as int) < n * d < n
    ensures d == 0
  {
  }

  /** Item centred by `carousel('set', t)` when `item` is centred. */
  function SetTarget(n: nat, item: int, t: Num): int
  {
    if n > 0 then Wrap(if t.NaN? then 0 else t.v, n) else item
  }

  /** Lines 24-32 with position `pos`: highlight nav entry `pos`, send the Swiper strip to
      `pos - 1`, write `'truth' + pos` to the fragment. With NaN the selector
      `:nth-child(NaN)` of line 25 is rejected by jQuery, which ends the handler there. */
  function SyncBody(n: nat, s: Nav, pos: Num): Nav
  {
    match pos
    case NaN => s
    case Int(k) => s.(current := Highlight(n, k), swiper := k - 1, hash := FragmentFor(pos))
  }

  /** Whether `onCycleTo` stops at line 25 with jQuery's error: only the guarded branch
      can read a NaN position, from the fragment. */
  predicate CycleThrows(s: Nav)
  {
    s.isFirstSet && FirstSetPosition(s.hash).NaN?
  }

  /** The `onCycleTo` handler (lines 10-33) called with the centred item named `name`.
      While the guard is armed it reads the position from the fragment instead, commands
      the carousel there and disarms the guard. Only that branch moves the carousel. */
  function CycleBody(n: nat, s: Nav, name: int): (r: Nav)
    ensures !r.isFirstSet && r.bound == s.bound
    ensures !s.isFirstSet ==> r.carousel == s.carousel
  {
    if s.isFirstSet then
      var pos := FirstSetPosition(s.hash);
      SyncBody(n, s.(carousel := SetTarget(n, s.carousel, Minus1(pos)), isFirstSet := false), pos)
    else SyncBody(n, s, Int(name))
  }

  /** The carousel's `onCycleTo` call for its centred item, and the call that follows when
      that handler moved the carousel. The second call finds the guard disarmed, so it
      leaves the carousel where it is and no third call follows. */
  function Cycled(n: nat, s: Nav): (r: Nav)
    ensures !r.isFirstSet && r.bound == s.bound
  {
    var r := CycleBody(n, s, s.carousel + 1);
    if r.carousel == s.carousel then r else CycleBody(n, r, r.carousel + 1)
  }

  /** Once the handler that commanded a move has returned: the carousel's `onCycleTo` call,
      if its centred item is no longer item `before`. */
  function Notify(n: nat, before: int, s: Nav): Nav
  {
    if s.carousel == before then s else Cycled(n, s)
  }

  /** `carousel('set', target)`, and the carousel's call once the handler has returned. */
  function SetAndNotify(n: nat, s: Nav, target: Num): Nav
  {
    Notify(n, s.carousel, s.(carousel := SetTarget(n, s.carousel, target)))
  }

  /** `carousel('next')` (delta 1) or `carousel('prev')` (delta -1), and the carousel's
      call. With fewer than two items the carousel does not wrap, so neither moves it. */
  function StepAndNotify(n: nat, s: Nav, delta: int): Nav
  {
    if n <= 1 then s else Cycled(n, s.(carousel := Wrap(s.carousel + delta, n)))
  }

  /** Click on the nav link whose `name` attribute is `name`: lines 74-78 once they are
      bound; before that no handler runs. */
  function Clicked(n: nat, s: Nav, name: string): Nav
  {
    if !s.bound then s else SetAndNotify(n, s, Minus1(ParseInt(name)))
  }

  /** Click on `#arrowPrev`: lines 81-88 once they are bound. */
  function PrevPressed(n: nat, s: Nav): Nav
  {
    if !s.bound then s
    else if PositionOrOne(s.hash) == 1 then SetAndNotify(n, s, Int(n - 1))
    else StepAndNotify(n, s, -1)
  }

  /** Click on `#arrowNext`: lines 90-97 once they are bound. */
  function NextPressed(n: nat, s: Nav): Nav
  {
    if !s.bound then s
    else if PositionOrOne(s.hash) == n then SetAndNotify(n, s, Int(0))
    else StepAndNotify(n, s, 1)
  }

  /** The body of `syncOnReload` (lines 100-107): with a non-empty fragment, both widgets
      are sent to the parsed position minus one. */
  function ReloadBody(n: nat, s: Nav): Nav
  {
    if s.hash == "" then s
    else
      var k := PositionOrOne(s.hash);
      s.(carousel := SetTarget(n, s.carousel, Int(k - 1)), swiper := k - 1)
  }

  /** The user drags the carousel onto `item`; the carousel binds its own drag handlers. */
  function Swiped(n: nat, s: Nav, item: int): Nav
  {
    if 0 <= item < n && item != s.carousel then Cycled(n, s.(carousel := item)) else s
  }

  /** The page once both widgets are built, before the carousel's first call: guard armed
      (line 3), no handler bound yet, both widgets on their first item, no nav entry
      marked. */
  function Initial(n: nat, hash: string): Nav
  {
    Nav(true, false, 0, 0, hash, Highlight(n, 0))
  }

  /** Line 71: building the carousel calls `onCycleTo` for its first item (name 1), while
      the guard is armed. A carousel without items makes no call. */
  function Started(n: nat, hash: string): Nav
  {
    var s := Initial(n, hash);
    if n > 0 then CycleBody(n, s, 1) else s
  }

  /** Whether the start-up call throws: the fragment reads as NaN, jQuery rejects the
      selector of line 25, and the error leaves `initializeCarousel()` at line 71 and with
      it the ready handler. */
  predicate StartupThrows(n: nat, hash: string)
  {
    n > 0 && FirstSetPosition(hash).NaN?
  }

  /** The page once the ready handler has ended and the carousel has reported. After a
      start-up call that throws, nothing else of the ready handler runs: no handler is
      bound and there is no reload pass. Otherwise lines 74-97 bind the handlers and the
      reload pass runs (line 110). The carousel reports when either command moved it off
      item 0, even if the reload pass sent it back: the second command measures its move
      from the item centred before the first one has scrolled, so the first scroll still
      runs. */
  function Load(n: nat, hash: string): Nav
  {
    var s := Started(n, hash);
    var r := if StartupThrows(n, hash) then s else ReloadBody(n, s.(bound := true));
    if s.carousel != 0 || r.carousel != s.carousel then Cycled(n, r) else r
  }

  /** What the user does once the page has loaded. */
  datatype Event = Click(linkName: string) | Prev | Next | Drag(item: int)

  function Apply(n: nat, s: Nav, e: Event): Nav
  {
    match e
    case Click(name) => Clicked(n, s, name)
    case Prev => PrevPressed(n, s)
    case Next => NextPressed(n, s)
    case Drag(item) => Swiped(n, s, item)
  }

  function Run(n: nat, s: Nav, events: seq<Event>): Nav
    decreases events
  {
    if events == [] then s else Run(n, Apply(n, s, events[0]), events[1..])
  }

  /** How many of `events` find the guard armed and leave it disarmed. */
  function GuardFlips(n: nat, s: Nav, events: seq<Event>): nat
    decreases events
  {
    if events == [] then 0
    else
      var t := Apply(n, s, events[0]);
      (if s.isFirstSet && !t.isFirstSet then 1 else 0) + GuardFlips(n, t, events[1..])
  }

  /** `s` with all four representations on item c: carousel and Swiper strip at c, fragment
      `#truth<c + 1>`, exactly nav entry c + 1 current; guard and handlers are left as
      they are. */
  function Showing(n: nat, s: Nav, c: int): Nav
  {
    s.(carousel := c, swiper := c, hash := FragmentFor(Int(c + 1)), current := Highlight(n, c + 1))
  }

  /** All four representations agree on an existing item. */
  predicate Synced(n: nat, s: Nav)
  {
    0 <= s.carousel < n && s == Showing(n, s, s.carousel)
  }

  lemma WrapOfNegative(a: int, n: nat)
    requires -(n as int) <= a < 0
    ensures Wrap(a, n) == a + n
  {
    assert Wrap(a + n, n) == a + n;
  }

  /** No handler arms the guard again. */
  lemma ApplyNeverRearms(n: nat, s: Nav, e: Event)
    ensures Apply(n, s, e).isFirstSet ==> s.isFirstSet
  {
  }

  /** No handler binds or unbinds the handlers. */
  lemma ApplyKeepsBound(n: nat, s: Nav, e: Event)
    ensures Apply(n, s, e).bound == s.bound
  {
    match e
    case Click(name) =>
    case Prev =>
    case Next =>
    case Drag(item) =>
  }

  /** The guard is consumed at most once over any sequence of events: it is never armed
      again, and exactly one event disarms it when the run ends disarmed from an armed start. */
  lemma {:induction false} GuardConsumedOnce(n: nat, s: Nav, events: seq<Event>)
    ensures Run(n, s, events).isFirstSet ==> s.isFirstSet
    ensures GuardFlips(n, s, events) == if s.isFirstSet && !Run(n, s, events).isFirstSet then 1 else 0
    ensures GuardFlips(n, s, events) <= 1
    decreases events
  {
    if events != [] {
      var t := Apply(n, s, events[0]);
      ApplyNeverRearms(n, s, events[0]);
      GuardConsumedOnce(n, t, events[1..]);
    }
  }

  /** The start-up call consumes the guard whenever there is a slide, so no event after the
      load finds it armed; without slides it stays armed for good. */
  lemma LoadConsumesGuard(n: nat, hash: string, events: seq<Event>)
    ensures Load(n, hash).isFirstSet <==> n == 0
    ensures n > 0 ==> !Run(n, Load(n, hash), events).isFirstSet
    ensures n > 0 ==> GuardFlips(n, Load(n, hash), events) == 0
  {
    GuardConsumedOnce(n, Load(n, hash), events);
  }

  /** Whether the handlers are bound never changes once the page has loaded. */
  lemma {:induction false} RunKeepsBound(n: nat, s: Nav, events: seq<Event>)
    ensures Run(n, s, events).bound == s.bound
    decreases events
  {
    if events != [] {
      ApplyKeepsBound(n, s, events[0]);
      RunKeepsBound(n, Apply(n, s, events[0]), events[1..]);
    }
  }

  /** The load binds the click and arrow handlers exactly when the start-up call does not
      throw, and they stay so for every sequence of events. */
  lemma LoadBindsHandlers(n: nat, hash: string, events: seq<Event>)
    ensures Load(n, hash).bound <==> !StartupThrows(n, hash)
    ensures Run(n, Load(n, hash), events).bound == Load(n, hash).bound
  {
    RunKeepsBound(n, Load(n, hash), events);
  }

  /** Without bound handlers, clicks on nav links and on both arrows change nothing. */
  lemma UnboundIgnoresNavigation(n: nat, s: Nav, name: string)
    requires !s.bound
    ensures Clicked(n, s, name) == s && PrevPressed(n, s) == s && NextPressed(n, s) == s
  {
  }

  /** Without bound handlers, a run of events without drags changes nothing. */
  lemma {:induction false} UnboundRunWithoutDrags(n: nat, s: Nav, events: seq<Event>)
    requires !s.bound && forall i :: 0 <= i < |events| ==> !events[i].Drag?
    ensures Run(n, s, events) == s
    decreases events
  {
    if events != [] {
      assert Apply(n, s, events[0]) == s;
      UnboundRunWithoutDrags(n, s, events[1..]);
    }
  }

  /** `onCycleTo` once the guard is consumed, with the centred item named k: fragment
      `#truth<k>`, Swiper at k - 1, exactly nav entry k current, carousel untouched; the
      arrow handlers then read position k back from the fragment. */
  lemma CycleToSyncs(n: nat, s: Nav, k: int)
    requires !s.isFirstSet
    ensures var r := CycleBody(n, s, k);
      && r.hash == FragmentFor(Int(k))
      && r.swiper == k - 1
      && |r.current| == n
      && (forall i :: 0 <= i < n ==> (r.current[i] <==> i + 1 == k))
      && r.carousel == s.carousel
      && !r.isFirstSet
      && (k != 0 ==> PositionOrOne(r.hash) == k)
  {
    FragmentRoundTrip(k);
    HighlightMarksExactly(n, k);
  }

  /** The carousel centred on item c after the guard is consumed: its `onCycleTo` call
      brings every other representation to item c. */
  lemma CycledNormal(n: nat, s: Nav, c: int)
    requires !s.isFirstSet
    ensures Cycled(n, s.(carousel := c)) == Showing(n, s, c)
  {
  }

  /** The guarded call with the fragment at position p: the carousel is sent to the item p
      wraps to, the Swiper strip to p - 1, the fragment becomes `#truth<p>`, nav entry p is
      highlighted and the guard is consumed. */
  lemma GuardedCall(n: nat, s: Nav, name: int, p: int)
    requires s.isFirstSet && n > 0 && FirstSetPosition(s.hash) == Int(p)
    ensures !CycleThrows(s)
    ensures CycleBody(n, s, name) == s.(isFirstSet := false, carousel := Wrap(p - 1, n), swiper := p - 1,
                                        hash := FragmentFor(Int(p)), current := Highlight(n, p))
  {
  }

  /** The guarded call with a fragment that is not a numeral: the carousel is sent to item
      0 and the handler stops at line 25 with the guard consumed. */
  lemma GuardedCallNaN(n: nat, s: Nav, name: int)
    requires s.isFirstSet && n > 0 && FirstSetPosition(s.hash) == NaN
    ensures CycleThrows(s)
    ensures CycleBody(n, s, name) == s.(isFirstSet := false, carousel := 0)
  {
  }

  /** Clicking nav entry k once the guard is consumed and the handlers are bound centres
      item k - 1; if that moves the carousel every representation follows it, otherwise
      nothing changes. */
  lemma ClickNavSelects(n: nat, s: Nav, k: int)
    requires !s.isFirstSet && s.bound && 1 <= k <= n
    ensures Clicked(n, s, ShowInt(k)).carousel == k - 1
    ensures s.carousel != k - 1 ==> Clicked(n, s, ShowInt(k)) == Showing(n, s, k - 1)
    ensures s.carousel == k - 1 ==> Clicked(n, s, ShowInt(k)) == s
  {
    ParseIntOfShow(k);
    assert SetTarget(n, s.carousel, Minus1(Int(k))) == k - 1;
    if k - 1 != s.carousel {
      CycledNormal(n, s, k - 1);
    }
  }

  /** Clicking the same nav link twice in a row changes nothing the second time. */
  lemma ClickNavIdempotent(n: nat, s: Nav, name: string)
    requires !s.isFirstSet
    ensures Clicked(n, Clicked(n, s, name), name) == Clicked(n, s, name)
  {
    var c := SetTarget(n, s.carousel, Minus1(ParseInt(name)));
    if s.bound && c != s.carousel {
      CycleToSyncs(n, s.(carousel := c), c + 1);
    }
  }

  /** `#arrowPrev` from any state once the guard is consumed and the handlers are bound:
      with the fragment reading as position 1 the carousel is sent to the last item,
      otherwise `prev` centres the item before the current one; every representation
      follows a move, and without one nothing changes. */
  lemma PrevPressedMoves(n: nat, s: Nav)
    requires n > 0 && !s.isFirstSet && s.bound
    ensures PrevPressed(n, s)
      == if PositionOrOne(s.hash) == 1 then (if s.carousel == n - 1 then s else Showing(n, s, n - 1))
         else if n == 1 then s
         else Showing(n, s, Wrap(s.carousel - 1, n))
  {
    if PositionOrOne(s.hash) == 1 {
      assert SetTarget(n, s.carousel, Int(n - 1)) == n - 1;
      if s.carousel != n - 1 {
        CycledNormal(n, s, n - 1);
      }
    } else if n > 1 {
      CycledNormal(n, s, Wrap(s.carousel - 1, n));
    }
  }

  /** `#arrowNext` from any state once the guard is consumed and the handlers are bound:
      with the fragment reading as position n the carousel is sent to item 0, otherwise
      `next` centres the item after the current one; every representation follows a
      move, and without one nothing changes. */
  lemma NextPressedMoves(n: nat, s: Nav)
    requires n > 0 && !s.isFirstSet && s.bound
    ensures NextPressed(n, s)
      == if PositionOrOne(s.hash) == n then (if s.carousel == 0 then s else Showing(n, s, 0))
         else if n == 1 then s
         else Showing(n, s, Wrap(s.carousel + 1, n))
  {
    if PositionOrOne(s.hash) == n {
      assert SetTarget(n, s.carousel, Int(0)) == 0;
      if s.carousel != 0 {
        CycledNormal(n, s, 0);
      }
    } else if n > 1 {
      CycledNormal(n, s, Wrap(s.carousel + 1, n));
    }
  }

  /** `#arrowNext` from an agreeing state: at the last item the carousel wraps to the
      first, otherwise it moves to the next one, and everything follows it. */
  lemma ArrowNextMoves(n: nat, s: Nav)
    requires !s.isFirstSet && s.bound && Synced(n, s)
    ensures NextPressed(n, s) == Showing(n, s, if s.carousel + 1 == n then 0 else s.carousel + 1)
  {
    FragmentRoundTrip(s.carousel + 1);
    NextPressedMoves(n, s);
    if s.carousel + 1 < n {
      assert Wrap(s.carousel + 1, n) == s.carousel + 1;
    }
  }

  /** `#arrowPrev` from an agreeing state: at the first item the carousel wraps to the
      last (n - 1), otherwise it moves to the previous one, and everything follows it. */
  lemma ArrowPrevMoves(n: nat, s: Nav)
    requires !s.isFirstSet && s.bound && Synced(n, s)
    ensures PrevPressed(n, s) == Showing(n, s, if s.carousel == 0 then n - 1 else s.carousel - 1)
  {
    FragmentRoundTrip(s.carousel + 1);
    PrevPressedMoves(n, s);
    if s.carousel > 0 {
      assert Wrap(s.carousel - 1, n) == s.carousel - 1;
    }
  }

  /** One `#arrowNext` press of a run of five slides, from item c. */
  lemma NextOfFive(s: Nav, c: int)
    requires !s.isFirstSet && s.bound && 0 <= c < 5 && s == Showing(5, s, c)
    ensures NextPressed(5, s) == Showing(5, s, if c == 4 then 0 else c + 1)
  {
    ArrowNextMoves(5, s);
  }

  /** Five `#arrowNext` presses from position 1 of five slides visit 2, 3, 4, 5 and 1. */
  lemma FiveNextPresses(s: Nav)
    requires !s.isFirstSet && s.bound && Synced(5, s) && s.carousel == 0
    ensures var s1 := NextPressed(5, s);
      var s2 := NextPressed(5, s1);
      var s3 := NextPressed(5, s2);
      var s4 := NextPressed(5, s3);
      var s5 := NextPressed(5, s4);
      [s1.hash, s2.hash, s3.hash, s4.hash, s5.hash] == ["#truth2", "#truth3", "#truth4", "#truth5", "#truth1"]
  {
    NextOfFive(s, 0);
    var s1 := Showing(5, s, 1);
    NextOfFive(s1, 1);
    var s2 := Showing(5, s1, 2);
    NextOfFive(s2, 2);
    var s3 := Showing(5, s2, 3);
    NextOfFive(s3, 3);
    var s4 := Showing(5, s3, 4);
    NextOfFive(s4, 4);
    FragmentsOneToFive();
  }

  lemma FragmentsOneToFive()
    ensures FragmentFor(Int(1)) == "#truth1" && FragmentFor(Int(2)) == "#truth2"
    ensures FragmentFor(Int(3)) == "#truth3" && FragmentFor(Int(4)) == "#truth4"
    ensures FragmentFor(Int(5)) == "#truth5"
  {
  }

  /** Loading with a fragment that the guarded branch reads as position p other than 0:
      the start-up call wraps p - 1 to item c and writes `#truth<p>`, which the reload pass
      reads back as p, so it sends the carousel to c again. If c is not item 0 the
      carousel's report brings everything to c; if it is, nothing moved, and the Swiper
      strip stays at p - 1 while nav entry p is highlighted. The handlers are bound. */
  lemma LoadAtPosition(n: nat, hash: string, p: int)
    requires n > 0 && FirstSetPosition(hash) == Int(p) && p != 0
    ensures var c := Wrap(p - 1, n);
      Load(n, hash) == if c == 0 then Nav(false, true, 0, p - 1, FragmentFor(Int(p)), Highlight(n, p))
                       else Nav(false, true, c, c, FragmentFor(Int(c + 1)), Highlight(n, c + 1))
  {
    var c := Wrap(p - 1, n);
    var s1 := Started(n, hash);
    GuardedCall(n, Initial(n, hash), 1, p);
    assert s1 == Nav(false, false, c, p - 1, FragmentFor(Int(p)), Highlight(n, p));
    FragmentRoundTrip(p);
    var r := s1.(bound := true);
    assert ReloadBody(n, r) == r;
    if c != 0 {
      CycledNormal(n, r, c);
    }
  }

  /** Loading with a fragment naming an existing slide k (`#truth<k>`, say): everything
      shows item k - 1, the guard is consumed and the handlers are bound. */
  lemma LoadWithFragment(n: nat, hash: string, k: int)
    requires FirstSetPosition(hash) == Int(k) && 1 <= k <= n
    ensures Load(n, hash) == Nav(false, true, k - 1, k - 1, FragmentFor(Int(k)), Highlight(n, k))
    ensures Synced(n, Load(n, hash))
  {
    LoadAtPosition(n, hash, k);
  }

  /** Loading without a fragment: everything shows the first slide, the fragment becomes
      `#truth1`, the guard is consumed and the handlers are bound; without slides the page
      stays as built, with the handlers bound. */
  lemma LoadWithoutFragment(n: nat)
    ensures n > 0 ==> Load(n, "") == Nav(false, true, 0, 0, FragmentFor(Int(1)), Highlight(n, 1))
    ensures n > 0 ==> Synced(n, Load(n, "")) && Load(n, "").carousel == 0
    ensures n == 0 ==> Load(n, "") == Initial(n, "").(bound := true)
  {
    EmptyFragment();
    if n > 0 {
      LoadWithFragment(n, "", 1);
    }
  }

  /** Five slides, loaded at `#truth3`: both widgets at index 2, fragment unchanged. */
  lemma LoadAtThirdOfFive()
    ensures var r := Load(5, "#truth3");
      r.carousel == 2 && r.swiper == 2 && r.hash == "#truth3"
  {
    FragmentsOneToFive();
    FragmentRoundTrip(3);
    LoadWithFragment(5, "#truth3", 3);
  }

  /** Five slides, loaded at `#truth6`, one whole turn past the last slide: the carousel
      wraps back onto item 0 where it already was, so no report follows, and the Swiper
      strip is left at index 5 with no nav entry highlighted. */
  lemma LoadOneTurnPastEnd()
    ensures Load(5, "#truth6") == Nav(false, true, 0, 5, "#truth6", Highlight(5, 6))
  {
    assert FragmentFor(Int(6)) == "#truth6";
    FragmentRoundTrip(6);
    LoadAtPosition(5, "#truth6", 6);
  }

  /** After that load, whose fragment reads as position 6, neither arrow takes its
      wrap-around branch: `next` centres item 1 and `prev` item 4, and everything follows. */
  lemma ArrowsAfterTurnPastEnd()
    ensures NextPressed(5, Load(5, "#truth6")) == Showing(5, Load(5, "#truth6"), 1)
    ensures PrevPressed(5, Load(5, "#truth6")) == Showing(5, Load(5, "#truth6"), 4)
  {
    LoadOneTurnPastEnd();
    FragmentRoundTrip(6);
    var s := Load(5, "#truth6");
    NextPressedMoves(5, s);
    PrevPressedMoves(5, s);
    WrapOfNegative(-1, 5);
  }

  /** Loading with a fragment the guarded branch reads as 0 (such as `#truth0`): the
      start-up call sends the carousel to the last item and writes `#truth0`, which the
      reload pass reads as 1 and sends the carousel back to item 0. With two slides or
      more the first move has started, so the carousel reports item 0 and everything
      shows the first slide; with one slide nothing moved and no nav entry is
      highlighted. */
  lemma LoadAtZero(n: nat, hash: string)
    requires n > 0 && FirstSetPosition(hash) == Int(0)
    ensures Load(n, hash) == if n == 1 then Nav(false, true, 0, 0, FragmentFor(Int(0)), Highlight(1, 0))
                             else Nav(false, true, 0, 0, FragmentFor(Int(1)), Highlight(n, 1))
    ensures n >= 2 ==> Synced(n, Load(n, hash))
  {
    var s1 := Started(n, hash);
    GuardedCall(n, Initial(n, hash), 1, 0);
    ZeroFragment();
    WrapOfNegative(-1, n);
    assert s1 == Nav(false, false, n - 1, -1, FragmentFor(Int(0)), Highlight(n, 0));
    var r := s1.(bound := true, carousel := 0, swiper := 0);
    assert ReloadBody(n, s1.(bound := true)) == r;
    if n >= 2 {
      CycledNormal(n, r, 0);
    }
  }

  /** Loading with a fragment that is not a numeral (`#truth`, `#comments`, say): the
      start-up call leaves the carousel on item 0 and throws at line 25, which ends the
      ready handler. No handler is bound, the reload pass never runs, the fragment is kept
      and no nav entry is highlighted. */
  lemma LoadAtNaN(n: nat, hash: string)
    requires n > 0 && FirstSetPosition(hash) == NaN
    ensures StartupThrows(n, hash)
    ensures Load(n, hash) == Nav(false, false, 0, 0, hash, Highlight(n, 0))
  {
    GuardedCallNaN(n, Initial(n, hash), 1);
  }

  /** `#truth` followed by anything that is not a numeral (`#truthfoo`, say). */
  lemma LoadAtNonNumeric(n: nat, rest: string)
    requires n > 0
    requires rest == [] || !(IsStrWhiteSpace(rest[0]) || rest[0] == '+' || rest[0] == '-' || IsDigitIn(rest[0], Decimal))
    ensures Load(n, "#truth" + rest) == Nav(false, false, 0, 0, "#truth" + rest, Highlight(n, 0))
  {
    NonNumericFragment(rest);
    LoadAtNaN(n, "#truth" + rest);
  }

  /** After such a load only dragging the carousel still works: clicks on nav links and on
      the arrows change nothing, and a drag onto another slide brings everything there. */
  lemma NaNLoadLeavesOnlyDragging(n: nat, hash: string, e: Event)
    requires n > 0 && FirstSetPosition(hash) == NaN
    ensures !e.Drag? ==> Apply(n, Load(n, hash), e) == Load(n, hash)
    ensures e.Drag? && 0 < e.item < n ==> Apply(n, Load(n, hash), e) == Showing(n, Load(n, hash), e.item)
  {
    LoadAtNaN(n, hash);
    if e.Drag? && 0 < e.item < n {
      CycledNormal(n, Load(n, hash), e.item);
    }
  }

  /** Five `#arrowNext` presses after loading five slides without a fragment visit
      positions 2, 3, 4, 5 and 1. */
  lemma FiveNextPressesAfterLoad()
    ensures var s1 := NextPressed(5, Load(5, ""));
      var s2 := NextPressed(5, s1);
      var s3 := NextPressed(5, s2);
      var s4 := NextPressed(5, s3);
      var s5 := NextPressed(5, s4);
      [s1.hash, s2.hash, s3.hash, s4.hash, s5.hash] == ["#truth2", "#truth3", "#truth4", "#truth5", "#truth1"]
  {
    LoadWithoutFragment(5);
    FiveNextPresses(Load(5, ""));
  }

  /** The navigation state of one embedded carousel, as the ready handler of
      multi-slider.js keeps it; each handler is proved to yield the state given by the
      function of the same name above. */
  class Navigator {
    /** Number of slides, `$('.carousel .carousel-item').length`. */
    const n: nat
    var isFirstSet: bool
    /** Whether lines 74-97 ran and bound the click and arrow handlers. */
    var handlersBound: bool
    var carouselIndex: int
    var swiperIndex: int
    var hash: string
    var current: seq<bool>

    ghost predicate Valid()
      reads this
    {
      |current| == n
    }

    ghost function State(): Nav
      reads this
    {
      Nav(isFirstSet, handlersBound, carouselIndex, swiperIndex, hash, current)
    }

    /** The ready handler: guard armed (line 3), both widgets built on their first item,
      the carousel's start-up call (line 71); unless that call threw, the handlers of lines
      74-97 and the reload pass (line 110); and then the carousel's report of the moves
      these commanded. */
    constructor (n: nat, initialHash: string)
      ensures Valid() && this.n == n
      ensures State() == Load(n, initialHash)
    {
      this.n := n;
      isFirstSet := true;
      handlersBound := false;
      carouselIndex := 0;
      swiperIndex := 0;
      hash := initialHash;
      current := Highlight(n, 0);
      new;
      var completed := true;
      if n > 0 {
        completed := OnCycleTo(1);
      }
      var started := carouselIndex;
      if completed {
        handlersBound := true;
        SyncOnReload();
      }
      if started != 0 || carouselIndex != started {
        CarouselCallsBack();
      }
    }

    /** `$('.carousel').carousel('set', t)`. */
    method CarouselSet(t: Num)
      modifies this`carouselIndex
      ensures carouselIndex == SetTarget(n, old(carouselIndex), t)
    {
      if n > 0 {
        carouselIndex := Wrap(if t.NaN? then 0 else t.v, n);
      }
    }

    /** Lines 25-26: add `current` to nav entry k, then remove it from every other entry. */
    method MarkCurrent(k: int)
      requires Valid()
      modifies this`current
      ensures Valid() && current == Highlight(n, k)
    {
      if 1 <= k <= n {
        current := current[k - 1 := true];
      }
      var marked := current;
      current := seq(n, i requires 0 <= i < n => i + 1 == k && marked[i]);
      HighlightMarksExactly(n, k);
    }

    /** The `onCycleTo` handler, lines 10-33; `completed` is false when jQuery threw at
        line 25. */
    method OnCycleTo(name: int) returns (completed: bool)
      requires Valid()
      modifies this
      ensures Valid() && State() == CycleBody(n, old(State()), name)
      ensures completed == !CycleThrows(old(State()))
    {
      var currentSlide := Int(name);
      if isFirstSet {
        if hash == "" {
          currentSlide := Int(1);
        } else {
          currentSlide := ParseFragment(hash);
        }
        CarouselSet(Minus1(currentSlide));
        isFirstSet := false;
      }
      completed := currentSlide.Int?;
      if completed {
        MarkCurrent(currentSlide.v);
        swiperIndex := currentSlide.v - 1;
        hash := FragmentFor(currentSlide);
      }
    }

    /** The carousel calls `onCycleTo` for its centred item, and once more if that call
        moved it; the second call finds the guard disarmed and does not move it. */
    method CarouselCallsBack()
      requires Valid()
      modifies this
      ensures Valid() && State() == Cycled(n, old(State()))
    {
      var before := carouselIndex;
      var completed := OnCycleTo(carouselIndex + 1);
      if carouselIndex != before {
        completed := OnCycleTo(carouselIndex + 1);
      }
    }

    /** Once the running handler has returned, the carousel calls back if its centred item
        is no longer item `before`. */
    method CarouselNotifies(before: int)
      requires Valid()
      modifies this
      ensures Valid() && State() == Notify(n, before, old(State()))
    {
      if carouselIndex != before {
        CarouselCallsBack();
      }
    }

    /** A click on the nav link whose `name` is `name`: lines 74-78 when they are bound;
        otherwise no handler runs and the browser's default action is not prevented. */
    method ClickNav(name: string) returns (defaultPrevented: bool)
      requires Valid()
      modifies this
      ensures Valid() && defaultPrevented == old(handlersBound)
      ensures State() == Clicked(n, old(State()), name)
    {
      defaultPrevented := handlersBound;
      if handlersBound {
        var slideIndex := ParseInt(name);
        var before := carouselIndex;
        CarouselSet(Minus1(slideIndex));
        CarouselNotifies(before);
      }
    }

    /** `carousel('next')` or `carousel('prev')`, then the carousel's `onCycleTo` call. */
    method CarouselStep(delta: int)
      requires Valid()
      modifies this
      ensures Valid() && State() == StepAndNotify(n, old(State()), delta)
    {
      if n > 1 {
        carouselIndex := Wrap(carouselIndex + delta, n);
        CarouselCallsBack();
      }
    }

    /** A click on `#arrowPrev`: lines 81-88 when they are bound. */
    method ArrowPrev()
      requires Valid()
      modifies this
      ensures Valid() && State() == PrevPressed(n, old(State()))
    {
      if handlersBound {
        var currentSlide := PositionOrOne(hash);
        if currentSlide == 1 {
          var before := carouselIndex;
          CarouselSet(Int(n - 1));
          CarouselNotifies(before);
        } else {
          CarouselStep(-1);
        }
      }
    }

    /** A click on `#arrowNext`: lines 90-97 when they are bound. */
    method ArrowNext()
      requires Valid()
      modifies this
      ensures Valid() && State() == NextPressed(n, old(State()))
    {
      if handlersBound {
        var currentSlide := PositionOrOne(hash);
        if currentSlide == n {
          var before := carouselIndex;
          CarouselSet(Int(0));
          CarouselNotifies(before);
        } else {
          CarouselStep(1);
        }
      }
    }

    /** `syncOnReload`, lines 100-107. */
    method SyncOnReload()
      requires Valid()
      modifies this
      ensures Valid() && State() == ReloadBody(n, old(State()))
    {
      if hash != "" {
        var slideIndex := PositionOrOne(hash);
        CarouselSet(Int(slideIndex - 1));
        swiperIndex := slideIndex - 1;
      }
    }

    /** The user drags the carousel onto `item`. */
    method Swipe(item: int)
      requires Valid()
      modifies this
      ensures Valid() && State() == Swiped(n, old(State()), item)
    {
      if 0 <= item < n && item != carouselIndex {
        carouselIndex := item;
        CarouselCallsBack();
      }
    }
  }
}
