/** The user-management filters: a role select, a status select and a search
    box narrow down the user cards and the rows of the users table. */
module UserFilters {
  import opened Js

  /** What the filter reads from one user card or table row: its
      `data-role` and `data-status` attributes and the text of its name and
      e-mail elements (each may be missing). */
  datatype Item = Item(role: Option<string>, status: Option<string>, name: Option<string>, email: Option<string>)

  /** The three filter values in effect. */
  datatype Filters = Filters(role: string, status: string, search: string)

  function LowerChar(c: char): char
  {
    if 'A' <= c <= 'Z' then (c as int - 'A' as int + 'a' as int) as char else c
  }

  /** `toLowerCase()`, on the ASCII letters. */
  function AsciiLower(s: string): (r: string)
    ensures |r| == |s|
    ensures forall i :: 0 <= i < |s| ==> r[i] == LowerChar(s[i])
  {
    seq(|s|, i requires 0 <= i < |s| => LowerChar(s[i]))
  }

  /** Lower-casing twice is lower-casing once. */
  lemma AsciiLowerIdempotent(s: string)
    ensures AsciiLower(AsciiLower(s)) == AsciiLower(s)
  {
  }

  /** `hay.includes(needle)`: never true of a needle longer than the
      haystack, always true of a prefix of the haystack. */
  function Includes(hay: string, needle: string): (b: bool)
    ensures b ==> |needle| <= |hay|
    ensures |needle| <= |hay| && hay[..|needle|] == needle ==> b
    decreases |hay|
  {
    if |hay| < |needle| then false
    else hay[..|needle|] == needle || (hay != [] && Includes(hay[1..], needle))
  }

  /** `needle` occurs in `hay` starting at position `i`. */
  ghost predicate OccursAt(hay: string, needle: string, i: int)
  {
    0 <= i <= |hay| - |needle| && hay[i..i + |needle|] == needle
  }

  /** `Includes` finds exactly the needles that occur somewhere in the haystack. */
  lemma {:induction false} IncludesIffOccurs(hay: string, needle: string)
    ensures Includes(hay, needle) <==> exists i :: OccursAt(hay, needle, i)
    decreases |hay|
  {
    if |hay| < |needle| {
      assert forall i :: !OccursAt(hay, needle, i);
    } else if hay[..|needle|] == needle {
      assert OccursAt(hay, needle, 0);
    } else {
      IncludesIffOccurs(hay[1..], needle);
      if i :| OccursAt(hay, needle, i) {
        assert i != 0;
        assert hay[1..][i - 1..i - 1 + |needle|] == hay[i..i + |needle|];
        assert OccursAt(hay[1..], needle, i - 1);
      }
      if i :| OccursAt(hay[1..], needle, i) {
        assert hay[1..][i..i + |needle|] == hay[i + 1..i + 1 + |needle|];
        assert OccursAt(hay, needle, i + 1);
      }
    }
  }

  /** The empty string is in every string. */
  lemma {:induction false} IncludesEmpty(hay: string)
    ensures Includes(hay, "")
  {
    IncludesIffOccurs(hay, "");
    assert OccursAt(hay, "", 0);
  }

  /** Dropping the last character of a query that is found leaves a query
      that is found. */
  lemma {:induction false} IncludesPrefix(hay: string, query: string, c: char)
    ensures Includes(hay, query + [c]) ==> Includes(hay, query)
  {
    IncludesIffOccurs(hay, query + [c]);
    IncludesIffOccurs(hay, query);
    if i :| OccursAt(hay, query + [c], i) {
      assert hay[i..i + |query|] == (query + [c])[..|query|] == query;
      assert OccursAt(hay, query, i);
    }
  }

  /** The text of an optional element, lower-cased, or `''` when the
      element is missing. */
  function LoweredText(text: Option<string>): (t: string)
    ensures |t| == (match text case None => 0 case Some(raw) => |raw|)
    ensures forall i :: 0 <= i < |t| ==> !('A' <= t[i] <= 'Z')
  {
    match text
    case None => ""
    case Some(t) => AsciiLower(t)
  }

  /** The filter values as `filterUsers` reads them from the role select,
      the status select and the search box; a missing control counts as
      `'all'` (selects) or `''` (search box). */
  function ReadFilters(roleControl: Option<string>, statusControl: Option<string>, searchControl: Option<string>): (f: Filters)
    ensures f.role == "all" <==> roleControl.None? || roleControl == Some("all")
    ensures f.status == "all" <==> statusControl.None? || statusControl == Some("all")
    ensures f.search == "" <==> searchControl.None? || searchControl == Some("")
    ensures forall i :: 0 <= i < |f.search| ==> !('A' <= f.search[i] <= 'Z')
  {
    Filters(
      match roleControl case Some(v) => v case None => "all",
      match statusControl case Some(v) => v case None => "all",
      LoweredText(searchControl))
  }

  /** `roleMatch`: the filter 'all' accepts every item; an item without a
      `data-role` is accepted by 'all' only. */
  predicate RoleMatch(f: Filters, item: Item)
    ensures f.role == "all" ==> RoleMatch(f, item)
    ensures item.role.None? ==> (RoleMatch(f, item) <==> f.role == "all")
  {
    f.role == "all" || item.role == Some(f.role)
  }

  /** `statusMatch`: the filter 'all' accepts every item; an item without a
      `data-status` is accepted by 'all' only. */
  predicate StatusMatch(f: Filters, item: Item)
    ensures f.status == "all" ==> StatusMatch(f, item)
    ensures item.status.None? ==> (StatusMatch(f, item) <==> f.status == "all")
  {
    f.status == "all" || item.status == Some(f.status)
  }

  /** `searchMatch`: the empty query accepts every item; any other query
      is accepted only if it fits in the item's name or e-mail. */
  predicate SearchMatch(f: Filters, item: Item)
    ensures f.search == "" ==> SearchMatch(f, item)
    ensures SearchMatch(f, item) && f.search != "" ==>
      |f.search| <= |LoweredText(item.name)| || |f.search| <= |LoweredText(item.email)|
  {
    f.search == "" || Includes(LoweredText(item.name), f.search) || Includes(LoweredText(item.email), f.search)
  }

  /** Whether `filterUsers` leaves a card or row on screen: the three
      matches together. With no filtering in effect every item is shown; an
      item lacking an attribute is shown only while that filter says 'all'. */
  predicate Visible(f: Filters, item: Item)
    ensures f == Filters("all", "all", "") ==> Visible(f, item)
    ensures Visible(f, item) ==> (f.role == "all" || item.role.Some?) && (f.status == "all" || item.status.Some?)
  {
    RoleMatch(f, item) && StatusMatch(f, item) && SearchMatch(f, item)
  }

  /** An item is shown exactly when its role and status match the selects
      (or they say 'all') and the query is empty or occurs in its lower-cased
      name or e-mail; an item missing the attribute matches only 'all'. */
  lemma VisibleIff(f: Filters, item: Item)
    ensures Visible(f, item) <==>
      && (f.role == "all" || (item.role.Some? && item.role.value == f.role))
      && (f.status == "all" || (item.status.Some? && item.status.value == f.status))
      && (f.search == ""
          || (exists i :: OccursAt(LoweredText(item.name), f.search, i))
          || (exists i :: OccursAt(LoweredText(item.email), f.search, i)))
  {
    IncludesIffOccurs(LoweredText(item.name), f.search);
    IncludesIffOccurs(LoweredText(item.email), f.search);
  }

  /** With none of the controls on the page, nothing is filtered out. */
  lemma MissingControlsShowEverything(item: Item)
    ensures Visible(ReadFilters(None, None, None), item)
  {
  }

  /** Typing one more character into the search box never brings back an
      item the shorter query hid. */
  lemma {:induction false} LongerQueryHidesMore(f: Filters, item: Item, c: char)
    ensures Visible(f.(search := f.search + [c]), item) ==> Visible(f, item)
  {
    IncludesPrefix(LoweredText(item.name), f.search, c);
    IncludesPrefix(LoweredText(item.email), f.search, c);
  }

  /** The search ignores the case of ASCII letters in the query. */
  lemma SearchIgnoresCase(roleControl: Option<string>, statusControl: Option<string>, query: string)
    ensures ReadFilters(roleControl, statusControl, Some(AsciiLower(query)))
         == ReadFilters(roleControl, statusControl, Some(query))
  {
    AsciiLowerIdempotent(query);
  }

  /** One pass of `filterUsers` over a list of cards or rows: `hidden[k]`
      becomes true (class `hidden` added, or `display: none`) exactly when
      item `k` fails the filter. */
  method ApplyFilter(f: Filters, items: seq<Item>, hidden: array<bool>)
    requires hidden.Length == |items|
    modifies hidden
    ensures forall k :: 0 <= k < |items| ==> hidden[k] == !Visible(f, items[k])
  {
    for k := 0 to |items|
      invariant forall j :: 0 <= j < k ==> hidden[j] == !Visible(f, items[j])
    {
      var item := items[k];
      var roleMatch := f.role == "all" || item.role == Some(f.role);
      var statusMatch := f.status == "all" || item.status == Some(f.status);
      var name, email := LoweredText(item.name), LoweredText(item.email);
      var searchMatch := f.search == "" || Includes(name, f.search) || Includes(email, f.search);
      if roleMatch && statusMatch && searchMatch {
        hidden[k] := false;
      } else {
        hidden[k] := true;
      }
    }
  }

  /** `filterUsers`: read the controls, then filter the user cards and the
      table rows by the same rule. */
  method FilterUsers(roleControl: Option<string>, statusControl: Option<string>, searchControl: Option<string>,
                     cards: seq<Item>, cardHidden: array<bool>, rows: seq<Item>, rowHidden: array<bool>)
    requires cardHidden.Length == |cards| && rowHidden.Length == |rows| && cardHidden != rowHidden
    modifies cardHidden, rowHidden
    ensures var f := ReadFilters(roleControl, statusControl, searchControl);
      && (forall k :: 0 <= k < |cards| ==> cardHidden[k] == !Visible(f, cards[k]))
      && (forall k :: 0 <= k < |rows| ==> rowHidden[k] == !Visible(f, rows[k]))
  {
    var f := ReadFilters(roleControl, statusControl, searchControl);
    ApplyFilter(f, cards, cardHidden);
    ApplyFilter(f, rows, rowHidden);
  }
}
