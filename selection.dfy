/** Exclusive "active" highlighting: the card/list view toggle buttons and the
    sidebar navigation items each keep exactly one member active. */
module Selection {
  import opened Js

  /** The `active` flags after clicking member `clicked` of `n`. */
  function Exclusive(n: nat, clicked: nat): (flags: seq<bool>)
    ensures |flags| == n
  {
    seq(n, i => i == clicked)
  }

  /** How many flags are set. */
  function CountTrue(flags: seq<bool>): nat
  {
    if flags == [] then 0 else (if flags[0] then 1 else 0) + CountTrue(flags[1..])
  }

  lemma {:induction false} NoneSet(flags: seq<bool>)
    requires forall i :: 0 <= i < |flags| ==> !flags[i]
    ensures CountTrue(flags) == 0
  {
    if flags != [] {
      NoneSet(flags[1..]);
    }
  }

  /** A list whose only set flag is at `k` has exactly one flag set. */
  lemma {:induction false} OnlyOneSet(flags: seq<bool>, k: nat)
    requires k < |flags| && forall i :: 0 <= i < |flags| ==> (flags[i] <==> i == k)
    ensures CountTrue(flags) == 1
  {
    if k == 0 {
      NoneSet(flags[1..]);
    } else {
      OnlyOneSet(flags[1..], k - 1);
    }
  }

  /** After a click exactly one member is active, and it is the clicked one. */
  lemma ExclusiveHasOneActive(n: nat, clicked: nat)
    requires clicked < n
    ensures CountTrue(Exclusive(n, clicked)) == 1
    ensures Exclusive(n, clicked)[clicked]
  {
    OnlyOneSet(Exclusive(n, clicked), clicked);
  }

  /** The click handler shared by the toggle buttons and the nav items:
      remove `active` from every member, then add it to the clicked one. */
  method SetActive(active: array<bool>, clicked: nat)
    requires clicked < active.Length
    modifies active
    ensures active[..] == Exclusive(active.Length, clicked)
  {
    for i := 0 to active.Length
      invariant forall j :: 0 <= j < i ==> !active[j]
    {
      active[i] := false;
    }
    active[clicked] := true;
  }

  /** A sidebar nav item click. Scrolling to the item's `data-target` and
      the temporary highlight are not part of this model. */
  method NavClick(active: array<bool>, clicked: nat)
    requires clicked < active.Length
    modifies active
    ensures active[..] == Exclusive(active.Length, clicked)
  {
    SetActive(active, clicked);
  }

  /** An element's inline `style.display`: not set, `'block'` or `'none'`. */
  datatype Display = Unset | Block | Hidden

  /** The card/list view switcher: the `.toggle-btn` buttons with their
      `data-view` attributes and the optional `#cardView` and `#listView`
      panels. */
  class ViewToggle {
    const active: array<bool>
    const views: seq<Option<string>>
    const hasCardView: bool
    const hasListView: bool
    var cardDisplay: Display
    var listDisplay: Display

    ghost predicate Valid()
      reads this
    {
      |views| == active.Length
    }

    constructor (active: array<bool>, views: seq<Option<string>>, hasCardView: bool, hasListView: bool)
      requires |views| == active.Length
      ensures Valid()
      ensures this.active == active && this.views == views
      ensures this.hasCardView == hasCardView && this.hasListView == hasListView
      ensures cardDisplay == Unset && listDisplay == Unset
    {
      this.active := active;
      this.views := views;
      this.hasCardView := hasCardView;
      this.hasListView := hasListView;
      cardDisplay, listDisplay := Unset, Unset;
    }

    /** A click on button `clicked`: it alone becomes active; a `card`
        button shows the card panel and hides the list panel, a `list`
        button the reverse, any other `data-view` leaves both panels alone,
        and a missing panel is skipped. */
    method Click(clicked: nat)
      requires Valid() && clicked < active.Length
      modifies this, active
      ensures Valid()
      ensures active[..] == Exclusive(active.Length, clicked)
      ensures views[clicked] == Some("card") ==>
        && cardDisplay == (if hasCardView then Block else old(cardDisplay))
        && listDisplay == (if hasListView then Hidden else old(listDisplay))
      ensures views[clicked] == Some("list") ==>
        && cardDisplay == (if hasCardView then Hidden else old(cardDisplay))
        && listDisplay == (if hasListView then Block else old(listDisplay))
      ensures views[clicked] != Some("card") && views[clicked] != Some("list") ==>
        cardDisplay == old(cardDisplay) && listDisplay == old(listDisplay)
    {
      SetActive(active, clicked);
      var view := views[clicked];
      if view == Some("card") {
        if hasCardView { cardDisplay := Block; }
        if hasListView { listDisplay := Hidden; }
      } else if view == Some("list") {
        if hasCardView { cardDisplay := Hidden; }
        if hasListView { listDisplay := Block; }
      }
    }
  }
}
