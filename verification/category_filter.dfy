/**
 The project category filter (js/main.js): clicking one of the
 `.project-category` buttons makes it the only active button and shows or
 hides every `.project-card` by comparing its `data-category` with the
 button's `data-filter`.

 Attributes are `Option<string>` because `getAttribute` answers `null` for a
 missing attribute, and the handler compares with `===`, under which `null`
 equals only `null`.
 */
module CategoryFilter {
  import opened Common

  /** The filter value that shows every card. */
  const ShowAll: string := "all"

  datatype Button = Button(filter: Option<string>, active: bool)

  /** Inline `display` of a card: untouched, `'block'` or `'none'`. */
  datatype Display = Unset | Block | Hidden

  datatype Card = Card(category: Option<string>, display: Display)

  /** Whether a card with `category` is shown under `filter`. */
  predicate Selects(filter: Option<string>, category: Option<string>) {
    filter == Some(ShowAll) || category == filter
  }

  /** The first loop: `classList.remove('active')` on every button. */
  function ClearActive(buttons: seq<Button>): (r: seq<Button>)
    ensures |r| == |buttons|
    ensures forall i :: 0 <= i < |r| ==> !r[i].active && r[i].filter == buttons[i].filter
  {
    if |buttons| == 0 then []
    else [buttons[0].(active := false)] + ClearActive(buttons[1..])
  }

  /** The card loop: each card's display after the filter `filter` is applied. */
  function ApplyFilter(cards: seq<Card>, filter: Option<string>): (r: seq<Card>)
    ensures |r| == |cards|
    ensures forall i :: 0 <= i < |r| ==> r[i].category == cards[i].category
    ensures forall i :: 0 <= i < |r| ==> (r[i].display == Block <==> Selects(filter, cards[i].category))
    ensures forall i :: 0 <= i < |r| ==> r[i].display != Unset
  {
    if |cards| == 0 then []
    else
      var shown := if Selects(filter, cards[0].category) then Block else Hidden;
      [cards[0].(display := shown)] + ApplyFilter(cards[1..], filter)
  }

  /** The click handler of button `clicked`: the buttons and cards afterwards. */
  function Click(buttons: seq<Button>, cards: seq<Card>, clicked: nat): (r: (seq<Button>, seq<Card>))
    requires clicked < |buttons|
    ensures |r.0| == |buttons| && |r.1| == |cards|
    ensures forall i :: 0 <= i < |buttons| ==> (r.0[i].active <==> i == clicked)
    ensures forall i :: 0 <= i < |buttons| ==> r.0[i].filter == buttons[i].filter
    ensures forall i :: 0 <= i < |cards| ==> r.1[i].category == cards[i].category
    ensures forall i :: 0 <= i < |cards| ==>
      r.1[i].display == (if Selects(buttons[clicked].filter, cards[i].category) then Block else Hidden)
  {
    var cleared := ClearActive(buttons);
    var activated := cleared[clicked := cleared[clicked].(active := true)];
    (activated, ApplyFilter(cards, buttons[clicked].filter))
  }

  // ---------------------------------------------------------------------------
  // Properties
  // ---------------------------------------------------------------------------

  /** The categories of the shown cards, in page order. */
  function ShownCategories(cards: seq<Card>): seq<Option<string>> {
    if |cards| == 0 then []
    else (if cards[0].display == Block then [cards[0].category] else []) + ShownCategories(cards[1..])
  }

  /** The categories in `cards` that `filter` selects, in page order: the
      reference description of what the filter should leave visible. */
  function Matching(cards: seq<Card>, filter: Option<string>): seq<Option<string>> {
    if |cards| == 0 then []
    else (if Selects(filter, cards[0].category) then [cards[0].category] else []) + Matching(cards[1..], filter)
  }

  /** After a click, the visible cards are exactly those the reference
      selection keeps, in the same order. */
  lemma {:induction false} ShownAreMatching(cards: seq<Card>, filter: Option<string>)
    ensures ShownCategories(ApplyFilter(cards, filter)) == Matching(cards, filter)
  {
    if |cards| > 0 {
      var r := ApplyFilter(cards, filter);
      assert r[1..] == ApplyFilter(cards[1..], filter);
      ShownAreMatching(cards[1..], filter);
    }
  }

  /** Filter `"all"` shows every card. */
  lemma AllShowsEverything(buttons: seq<Button>, cards: seq<Card>, clicked: nat)
    requires clicked < |buttons| && buttons[clicked].filter == Some(ShowAll)
    ensures forall i :: 0 <= i < |cards| ==> Click(buttons, cards, clicked).1[i].display == Block
  {
  }

  /** Filter `"plumbing"` shows exactly the cards tagged `"plumbing"` and
      hides every other card. */
  lemma PlumbingShowsOnlyPlumbing(buttons: seq<Button>, cards: seq<Card>, clicked: nat)
    requires clicked < |buttons| && buttons[clicked].filter == Some("plumbing")
    ensures forall i :: 0 <= i < |cards| ==>
      Click(buttons, cards, clicked).1[i].display == (if cards[i].category == Some("plumbing") then Block else Hidden)
  {
    assert Some("plumbing") != Some(ShowAll);
  }

  /** Clicking the same button again changes nothing. */
  lemma ClickTwiceIsClickOnce(buttons: seq<Button>, cards: seq<Card>, clicked: nat)
    requires clicked < |buttons|
    ensures var once := Click(buttons, cards, clicked);
      Click(once.0, once.1, clicked) == once
  {
    var once := Click(buttons, cards, clicked);
    var twice := Click(once.0, once.1, clicked);
    assert once.0[clicked].filter == buttons[clicked].filter;
    assert forall i :: 0 <= i < |buttons| ==> twice.0[i] == once.0[i];
    assert forall i :: 0 <= i < |cards| ==> twice.1[i] == once.1[i];
    assert twice.0 == once.0 && twice.1 == once.1;
  }

  /** A button without `data-filter` (`null`) shows only the cards that have
      no `data-category` either, and hides every tagged card. */
  lemma MissingFilterShowsUntagged(buttons: seq<Button>, cards: seq<Card>, clicked: nat)
    requires clicked < |buttons| && buttons[clicked].filter == None
    ensures forall i :: 0 <= i < |cards| ==>
      Click(buttons, cards, clicked).1[i].display == (if cards[i].category == None then Block else Hidden)
  {
  }
}
