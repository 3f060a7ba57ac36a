/** The "Projects in Progress" carousel: a focus index over a fixed list of
    cards, stepped by a next button, the keyboard and horizontal swipes, and
    rendered by writing every card's position relative to the focus into its
    `data-index` attribute. */
module Carousel {
  import opened Js

  /** Horizontal distance, in CSS pixels, a swipe must exceed to step. */
  const SwipeThreshold: real := 50.0

  // ---------------------------------------------------------------------
  // Index arithmetic
  // ---------------------------------------------------------------------

  /** The focus index after `next()`: `(i + 1) % n`, wrapping to the first card. */
  function NextIndex(i: int, n: int): (r: int)
    requires 0 <= i < n
    ensures 0 <= r < n
    ensures r == if i == n - 1 then 0 else i + 1
  {
    JsRemBelowTwice(i + 1, n);
    JsRem(i + 1, n)
  }

  /** The focus index after `prev()`: `(i - 1 + n) % n`, wrapping to the last card. */
  function PrevIndex(i: int, n: int): (r: int)
    requires 0 <= i < n
    ensures 0 <= r < n
    ensures r == if i == 0 then n - 1 else i - 1
  {
    JsRemBelowTwice(i - 1 + n, n);
    JsRem(i - 1 + n, n)
  }

  /** Stepping back undoes stepping forward and vice versa. */
  lemma NextPrevRoundTrip(i: int, n: int)
    requires 0 <= i < n
    ensures PrevIndex(NextIndex(i, n), n) == i
    ensures NextIndex(PrevIndex(i, n), n) == i
  {
  }

  /** Three cards with the last one focused: `next()` wraps to the first. */
  lemma NextWrapsAround()
    ensures NextIndex(2, 3) == 0
  {
  }

  /** The `data-index` written on card `k`: `(k - current + n) % n`, its
      distance forward from the focused card. Stepping forward that many
      times from the focus lands on card `k`. */
  function RelativeIndex(k: int, current: int, n: int): (r: int)
    requires 0 <= k < n && 0 <= current < n
    ensures 0 <= r < n
    ensures r == if current <= k then k - current else k - current + n
    ensures CardAt(current, r, n) == k
  {
    JsRemBelowTwice(k - current + n, n);
    JsRemBelowTwice(current + (if current <= k then k - current else k - current + n), n);
    JsRem(k - current + n, n)
  }

  /** The card that sits `t` places forward of the focused card. */
  function CardAt(current: int, t: int, n: int): int
    requires 0 <= current < n && 0 <= t < n
  {
    JsRem(current + t, n)
  }

  /** Every card's `data-index`, in card order. */
  function Tags(current: int, n: int): (tags: seq<int>)
    requires 0 <= current < n
    ensures |tags| == n
  {
    seq(n, k requires 0 <= k < n => RelativeIndex(k, current, n))
  }

  /** `[0, 1, ..., n - 1]`. */
  function Range(n: nat): (r: seq<int>)
    ensures |r| == n && forall k :: 0 <= k < n ==> r[k] == k
  {
    seq(n, k => k)
  }

  /** The tags are the positions `0 .. n-1` rotated so that the focused card
      holds 0: a permutation of `0 .. n-1` in which only the focused card has
      tag 0, and the card `t` places forward of the focus has tag `t`. */
  lemma TagsArePermutation(current: int, n: int)
    requires 0 <= current < n
    ensures Tags(current, n) == Range(n)[n - current..] + Range(n)[..n - current]
    ensures multiset(Tags(current, n)) == multiset(Range(n))
    ensures forall k :: 0 <= k < n ==> 0 <= Tags(current, n)[k] < n
    ensures forall j, k :: 0 <= j < k < n ==> Tags(current, n)[j] != Tags(current, n)[k]
    ensures forall k :: 0 <= k < n ==> (Tags(current, n)[k] == 0 <==> k == current)
    ensures forall t :: 0 <= t < n ==> Tags(current, n)[CardAt(current, t, n)] == t
  {
    var tags, r := Tags(current, n), Range(n);
    assert tags == r[n - current..] + r[..n - current];
    calc {
      multiset(tags);
      multiset(r[n - current..]) + multiset(r[..n - current]);
      { assert r == r[..n - current] + r[n - current..]; }
      multiset(r);
    }
    forall t | 0 <= t < n
      ensures tags[CardAt(current, t, n)] == t
    {
      JsRemBelowTwice(current + t, n);
    }
  }

  /** Freshly rendered, card `k` carries tag `k`. */
  lemma InitialTagsAreIdentity(n: int)
    requires 1 <= n
    ensures Tags(0, n) == Range(n)
  {
  }

  // ---------------------------------------------------------------------
  // The event-driven state machine, as values
  // ---------------------------------------------------------------------

  /** The touch handlers' closure variables `startX`, `currentX`, `isDragging`. */
  datatype Gesture = Gesture(startX: real, currentX: real, isDragging: bool)

  /** Everything about the carousel that changes: the focus and the gesture. */
  datatype Snapshot = Snapshot(index: int, gesture: Gesture)

  /** The events the carousel reacts to. `NextClick` is a click on the
      `#carouselNext` button; `KeyDown` carries the key and whether the
      carousel container is on screen. */
  datatype Event =
    | NextClick
    | TouchStart(x: real)
    | TouchMove(x: real)
    | TouchEnd
    | KeyDown(key: string, inView: bool)

  /** What a finished drag asks for. */
  datatype Swipe = Forward | Backward | NoSwipe

  function AbsReal(x: real): real
  {
    if x < 0.0 then -x else x
  }

  /** The decision taken at touch end from `diff = startX - currentX`: a
      step forward exactly when the finger moved more than the threshold to
      the left, backward exactly when it moved more than the threshold to
      the right, and otherwise none. */
  function SwipeOf(diff: real): (s: Swipe)
    ensures s == Forward <==> diff > SwipeThreshold
    ensures s == Backward <==> diff < -SwipeThreshold
    ensures s == NoSwipe <==> -SwipeThreshold <= diff <= SwipeThreshold
  {
    if AbsReal(diff) > SwipeThreshold then
      if diff > 0.0 then Forward else Backward
    else
      NoSwipe
  }

  /** How the carousel handles one event. A `NextClick` only ever arrives
      when the page has a next button, since the click listener is attached
      to that button; the function does not repeat that condition. */
  function Step(n: int, hasNextButton: bool, s: Snapshot, e: Event): (s': Snapshot)
    requires 0 <= s.index < n
    ensures 0 <= s'.index < n
  {
    var g := s.gesture;
    match e
    case NextClick => s.(index := NextIndex(s.index, n))
    case TouchStart(x) => s.(gesture := g.(startX := x, isDragging := true))
    case TouchMove(x) => if !g.isDragging then s else s.(gesture := g.(currentX := x))
    case TouchEnd =>
      if !g.isDragging then s
      else
        var ended := g.(isDragging := false);
        (match SwipeOf(g.startX - g.currentX)
         case Forward => Snapshot(NextIndex(s.index, n), ended)
         case Backward => Snapshot(PrevIndex(s.index, n), ended)
         case NoSwipe => Snapshot(s.index, ended))
    case KeyDown(key, inView) =>
      if inView && key == "ArrowRight" && hasNextButton then s.(index := NextIndex(s.index, n))
      else s
  }

  /** The state after a sequence of events, handled one at a time. Touch
      moves and touch ends that arrive while no drag is in progress, in any
      number, leave the state exactly as it was. */
  function Run(n: int, hasNextButton: bool, s: Snapshot, events: seq<Event>): (r: Snapshot)
    requires 0 <= s.index < n
    ensures !s.gesture.isDragging && (forall i :: 0 <= i < |events| ==> events[i].TouchMove? || events[i].TouchEnd?)
            ==> r == s
    decreases |events|
  {
    if events == [] then s
    else
      Run(n, hasNextButton, Step(n, hasNextButton, s, events[0]), events[1..])
  }

  /** No sequence of events takes the focus index off the cards. */
  lemma {:induction false} RunKeepsIndexInRange(n: int, hasNextButton: bool, s: Snapshot, events: seq<Event>)
    requires 0 <= s.index < n
    ensures 0 <= Run(n, hasNextButton, s, events).index < n
    decreases |events|
  {
    if events != [] {
      RunKeepsIndexInRange(n, hasNextButton, Step(n, hasNextButton, s, events[0]), events[1..]);
    }
  }

  /** Running two event sequences back to back is running their concatenation. */
  lemma {:induction false} RunAppend(n: int, hasNextButton: bool, s: Snapshot, a: seq<Event>, b: seq<Event>)
    requires 0 <= s.index < n
    ensures 0 <= Run(n, hasNextButton, s, a).index < n
    ensures Run(n, hasNextButton, s, a + b) == Run(n, hasNextButton, Run(n, hasNextButton, s, a), b)
    decreases |a|
  {
    RunKeepsIndexInRange(n, hasNextButton, s, a);
    if a == [] {
      assert a + b == b;
    } else {
      assert (a + b)[0] == a[0] && (a + b)[1..] == a[1..] + b;
      RunAppend(n, hasNextButton, Step(n, hasNextButton, s, a[0]), a[1..], b);
    }
  }

  /** A touch move or touch end that arrives while no drag is in progress
      changes nothing. */
  lemma StrayTouchIgnored(n: int, hasNextButton: bool, s: Snapshot, x: real)
    requires 0 <= s.index < n && !s.gesture.isDragging
    ensures Step(n, hasNextButton, s, TouchMove(x)) == s
    ensures Step(n, hasNextButton, s, TouchEnd) == s
  {
  }

  /** A complete drag from `x0` to `x1` ends idle and steps at most once:
      forward past the threshold to the left, backward past it to the right. */
  lemma {:induction false} DragSteps(n: int, hasNextButton: bool, s: Snapshot, x0: real, x1: real)
    requires 0 <= s.index < n
    ensures var r := Run(n, hasNextButton, s, [TouchStart(x0), TouchMove(x1), TouchEnd]);
      && r.gesture == Gesture(x0, x1, false)
      && r.index == (if x0 - x1 > SwipeThreshold then NextIndex(s.index, n)
                     else if x0 - x1 < -SwipeThreshold then PrevIndex(s.index, n)
                     else s.index)
  {
    var events := [TouchStart(x0), TouchMove(x1), TouchEnd];
    var s1 := Step(n, hasNextButton, s, events[0]);
    var s2 := Step(n, hasNextButton, s1, events[1]);
    var s3 := Step(n, hasNextButton, s2, events[2]);
    assert Run(n, hasNextButton, s2, events[2..]) == s3 by {
      assert events[2..][1..] == [];
    }
    assert Run(n, hasNextButton, s1, events[1..]) == Run(n, hasNextButton, s2, events[2..]) by {
      assert events[1..][0] == events[1] && events[1..][1..] == events[2..];
    }
  }

  /** The threshold is strict: a 49-pixel drag does nothing, a 51-pixel
      drag steps forward once. */
  lemma ThresholdBoundary(n: int, hasNextButton: bool, s: Snapshot)
    requires 0 <= s.index < n
    ensures Run(n, hasNextButton, s, [TouchStart(100.0), TouchMove(51.0), TouchEnd]).index == s.index
    ensures Run(n, hasNextButton, s, [TouchStart(100.0), TouchMove(49.0), TouchEnd]).index == NextIndex(s.index, n)
  {
    DragSteps(n, hasNextButton, s, 100.0, 51.0);
    DragSteps(n, hasNextButton, s, 100.0, 49.0);
  }

  /** A swipe left followed by a swipe right comes back to the same card. */
  lemma SwipeLeftThenRight(n: int, hasNextButton: bool, s: Snapshot, a: real, b: real)
    requires 0 <= s.index < n
    ensures Run(n, hasNextButton, s, [TouchStart(a), TouchMove(a - 60.0), TouchEnd]
                                   + [TouchStart(b), TouchMove(b + 60.0), TouchEnd]).index == s.index
  {
    var left := [TouchStart(a), TouchMove(a - 60.0), TouchEnd];
    var right := [TouchStart(b), TouchMove(b + 60.0), TouchEnd];
    RunAppend(n, hasNextButton, s, left, right);
    DragSteps(n, hasNextButton, s, a, a - 60.0);
    DragSteps(n, hasNextButton, Run(n, hasNextButton, s, left), b, b + 60.0);
  }

  /** `touchstart` does not reset `currentX`: a tap with no move compares
      the new start against the last move of the previous gesture (0 before
      any move). */
  lemma {:induction false} TapUsesStaleCurrentX(n: int, hasNextButton: bool, s: Snapshot, x: real)
    requires 0 <= s.index < n
    ensures var r := Run(n, hasNextButton, s, [TouchStart(x), TouchEnd]);
      && r.gesture == s.gesture.(startX := x, isDragging := false)
      && r.index == (match SwipeOf(x - s.gesture.currentX)
                     case Forward => NextIndex(s.index, n)
                     case Backward => PrevIndex(s.index, n)
                     case NoSwipe => s.index)
  {
    var events := [TouchStart(x), TouchEnd];
    var s1 := Step(n, hasNextButton, s, events[0]);
    var s2 := Step(n, hasNextButton, s1, events[1]);
    assert Run(n, hasNextButton, s1, events[1..]) == s2 by {
      assert events[1..][0] == events[1] && events[1..][1..] == [];
    }
  }

  /** With the carousel on screen and a next button present, ArrowRight steps
      forward; ArrowLeft and every other key leave the focus where it is. */
  lemma KeyboardDispatch(n: int, hasNextButton: bool, s: Snapshot, key: string, inView: bool)
    requires 0 <= s.index < n
    ensures Step(n, hasNextButton, s, KeyDown(key, inView)).gesture == s.gesture
    ensures Step(n, hasNextButton, s, KeyDown(key, inView)).index
            == if inView && key == "ArrowRight" && hasNextButton then NextIndex(s.index, n) else s.index
  {
  }

  // ---------------------------------------------------------------------
  // The widget
  // ---------------------------------------------------------------------

  /** A carousel over host-owned cards. `cards[k]` is the `data-index`
      attribute of the k-th card; the widget rewrites it on every step. */
  class ProjectCarousel {
    const cards: array<int>
    const totalCards: int
    /** Whether the page has a `#carouselNext` button. */
    const hasNextButton: bool
    var currentIndex: int
    var startX: real
    var currentX: real
    var isDragging: bool

    /** The fields that hold between renders. */
    ghost predicate Indexed()
      reads this
    {
      totalCards == cards.Length && 1 <= totalCards && 0 <= currentIndex < totalCards
    }

    /** Every card carries its position relative to the focused card. */
    ghost predicate Valid()
      reads this, cards
    {
      Indexed() && cards[..] == Tags(currentIndex, totalCards)
    }

    function State(): Snapshot
      reads this
    {
      Snapshot(currentIndex, Gesture(startX, currentX, isDragging))
    }

    /** `new ProjectCarousel(container, cards)`: focus the first card and
        render at once; card `k` gets tag `k`. */
    constructor (cards: array<int>, hasNextButton: bool)
      requires 1 <= cards.Length
      modifies cards
      ensures Valid()
      ensures this.cards == cards && totalCards == cards.Length && this.hasNextButton == hasNextButton
      ensures State() == Snapshot(0, Gesture(0.0, 0.0, false))
      ensures cards[..] == Range(cards.Length)
    {
      this.cards := cards;
      totalCards := cards.Length;
      this.hasNextButton := hasNextButton;
      currentIndex := 0;
      startX, currentX, isDragging := 0.0, 0.0, false;
      new;
      UpdateCarousel();
      InitialTagsAreIdentity(totalCards);
    }

    /** Writes every card's relative position into its `data-index`. */
    method UpdateCarousel()
      requires Indexed()
      modifies cards
      ensures Valid()
    {
      for index := 0 to totalCards
        invariant forall k :: 0 <= k < index ==> cards[k] == RelativeIndex(k, currentIndex, totalCards)
      {
        cards[index] := JsRem(index - currentIndex + totalCards, totalCards);
      }
    }

    /** `next()`, also the next button's click handler. */
    method Next()
      requires Valid()
      modifies this, cards
      ensures Valid()
      ensures State() == Step(totalCards, hasNextButton, old(State()), NextClick)
      ensures currentIndex == NextIndex(old(currentIndex), totalCards)
      ensures startX == old(startX) && currentX == old(currentX) && isDragging == old(isDragging)
    {
      currentIndex := JsRem(currentIndex + 1, totalCards);
      UpdateCarousel();
    }

    /** `prev()`, reachable only by a rightward swipe. */
    method Prev()
      requires Valid()
      modifies this, cards
      ensures Valid()
      ensures currentIndex == PrevIndex(old(currentIndex), totalCards)
      ensures startX == old(startX) && currentX == old(currentX) && isDragging == old(isDragging)
    {
      currentIndex := JsRem(currentIndex - 1 + totalCards, totalCards);
      UpdateCarousel();
    }

    /** `touchstart`: remember where the finger went down; `currentX` keeps
        whatever the last gesture left in it. */
    method TouchStart(x: real)
      requires Valid()
      modifies this
      ensures Valid()
      ensures State() == Step(totalCards, hasNextButton, old(State()), Event.TouchStart(x))
    {
      startX := x;
      isDragging := true;
    }

    /** `touchmove`: follow the finger, only while dragging. */
    method TouchMove(x: real)
      requires Valid()
      modifies this
      ensures Valid()
      ensures State() == Step(totalCards, hasNextButton, old(State()), Event.TouchMove(x))
    {
      if !isDragging {
        return;
      }
      currentX := x;
    }

    /** `touchend`: end the drag and step at most once. */
    method TouchEnd()
      requires Valid()
      modifies this, cards
      ensures Valid()
      ensures State() == Step(totalCards, hasNextButton, old(State()), Event.TouchEnd)
    {
      if !isDragging {
        return;
      }
      isDragging := false;
      var diff := startX - currentX;
      if AbsReal(diff) > SwipeThreshold {
        if diff > 0.0 {
          Next();
        } else {
          Prev();
        }
      }
    }

    /** The document's `keydown` handler: ArrowRight clicks the next button
        when the carousel is on screen; ArrowLeft is deliberately inert. */
    method KeyDown(key: string, inView: bool)
      requires Valid()
      modifies this, cards
      ensures Valid()
      ensures State() == Step(totalCards, hasNextButton, old(State()), Event.KeyDown(key, inView))
    {
      if inView {
        if key == "ArrowRight" {
          if hasNextButton {
            Next();
          }
        }
      }
    }
  }

  /** The `DOMContentLoaded` bootstrap: a carousel is built only when the
      page has a `.carousel-container` and at least one `.project-card`. */
  method Boot(hasContainer: bool, cards: array<int>, hasNextButton: bool) returns (c: ProjectCarousel?)
    modifies cards
    ensures (c != null) == (hasContainer && 1 <= cards.Length)
    ensures c != null ==> fresh(c) && c.Valid() && c.cards == cards && c.currentIndex == 0
    ensures c == null ==> unchanged(cards)
  {
    c := null;
    if hasContainer && cards.Length > 0 {
      c := new ProjectCarousel(cards, hasNextButton);
    }
  }
}
