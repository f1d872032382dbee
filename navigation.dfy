/** The navigation rules of `Paginator`: how a `PageGoTo` request becomes a
    page number, and which buttons `fill_items` shows and disables. */
module Navigation {
  import opened MenuErrors
  import opened LazyPages

  /** The navigation requests of the `PageGoTo` enumeration. */
  datatype PageGoTo = FirstPage | LastPage | NextPage | PreviousPage | CurrentPage

  /** `math.ceil(n / p)`, taken on the exact quotient: the least integer at
      or above `n / p`, for either sign of `p`. */
  function CeilDiv(n: int, p: int): (q: int)
    requires p != 0
    ensures 0 < p ==> (q - 1) * p < n <= q * p
    ensures p < 0 ==> q * p <= n < (q - 1) * p
  {
    if 0 < p then
      var m := (-n) / p;
      assert m * p <= -n < m * p + p;
      assert (-m - 1) * p == -(m * p) - p;
      -m
    else
      var m := n / (-p);
      assert m * (-p) <= n < m * (-p) - p;
      assert (-m - 1) * p == m * (-p) - p;
      -m
  }

  /** `get_go_to_index`: the page a request stands for, with no clamping.
      The last page is `ceil(entries / per_page) - 1`, and with
      `per_page == 0` that division raises. */
  function ResolveTarget(goTo: PageGoTo, currentPage: int, perPage: int, numEntries: int): (r: Result<int>)
    ensures r.Err? <==> goTo == LastPage && perPage == 0
    ensures r.Err? ==> r.error == ZeroDivision
    // the last page is the one that holds entry number `numEntries`
    ensures goTo == LastPage && 0 < perPage ==> r.value * perPage < numEntries <= (r.value + 1) * perPage
    // moving by one page is relative to the current page and unbounded
    ensures goTo == NextPage ==> r.value - currentPage == 1
    ensures goTo == PreviousPage ==> currentPage - r.value == 1
    ensures goTo == CurrentPage ==> r.value == currentPage
    ensures goTo == FirstPage ==> r.value == 0
  {
    match goTo
    case CurrentPage => Ok(currentPage)
    case NextPage => Ok(currentPage + 1)
    case PreviousPage => Ok(currentPage - 1)
    case LastPage => if perPage == 0 then Err(ZeroDivision) else Ok(CeilDiv(numEntries, perPage) - 1)
    case FirstPage => Ok(0)
  }

  /** The five buttons the view declares, in declaration order. */
  datatype ButtonKind = FirstButton | PreviousButton | NextButton | LastButton | QuitButton

  const AllButtons: set<ButtonKind> := {FirstButton, PreviousButton, NextButton, LastButton, QuitButton}

  /** Every button has a flag in `d`. */
  ghost predicate Complete(d: map<ButtonKind, bool>) {
    forall b: ButtonKind :: b in d
  }

  lemma AllButtonsAreDeclared()
    ensures forall b: ButtonKind :: b in AllButtons
  {
    forall b: ButtonKind
      ensures b in AllButtons
    {
      match b
      case FirstButton =>
      case PreviousButton =>
      case NextButton =>
      case LastButton =>
      case QuitButton =>
    }
  }

  /** Position of a button in the class body. */
  function Rank(b: ButtonKind): nat {
    match b
    case FirstButton => 0
    case PreviousButton => 1
    case NextButton => 2
    case LastButton => 3
    case QuitButton => 4
  }

  /** The request a navigation button's callback sends the page for. */
  function TargetOf(b: ButtonKind): PageGoTo
    requires b != QuitButton
  {
    match b
    case FirstButton => FirstPage
    case PreviousButton => PreviousPage
    case NextButton => NextPage
    case LastButton => LastPage
  }

  /** The view's children in order, and the `disabled` flag each of the five
      button objects carries (kept across `clear_items`). */
  datatype View = View(children: seq<ButtonKind>, disabled: map<ButtonKind, bool>)

  /** How many entries the pages up to and including the current one span. */
  function Visible(currentPage: int, perPage: int): int {
    (currentPage + 1) * perPage
  }

  /** The buttons `fill_items(entries)` appends. */
  function FilledKinds(allow: bool, perPage: int, entries: int): seq<ButtonKind> {
    if entries <= perPage then []
    else
      (if allow then [FirstButton] else [])
      + [PreviousButton, NextButton]
      + (if allow then [LastButton] else [])
      + [QuitButton]
  }

  /** None for a single page; otherwise previous, next and quit, with first
      and last around them when they are allowed, each once, in declaration
      order. */
  lemma FilledButtonsInDeclarationOrder(allow: bool, perPage: int, entries: int)
    ensures var ks := FilledKinds(allow, perPage, entries);
      && (entries <= perPage ==> ks == [])
      && (perPage < entries ==> PreviousButton in ks && NextButton in ks && QuitButton in ks)
      && (FirstButton in ks <==> allow && perPage < entries)
      && (LastButton in ks <==> allow && perPage < entries)
      && (forall i, j :: 0 <= i < j < |ks| ==> Rank(ks[i]) < Rank(ks[j]))
  {
    var ks := FilledKinds(allow, perPage, entries);
    if perPage < entries {
      if allow {
        assert ks == [FirstButton, PreviousButton, NextButton, LastButton, QuitButton];
      } else {
        assert ks == [PreviousButton, NextButton, QuitButton];
      }
    }
  }

  /** The `disabled` flags after `fill_items(entries)` on page `currentPage`. */
  function FilledDisabled(allow: bool, perPage: int, currentPage: int, entries: int, d: map<ButtonKind, bool>): map<ButtonKind, bool> {
    if entries <= perPage then d
    else
      var v := Visible(currentPage, perPage);
      var d1 := if allow then d[FirstButton := v <= perPage] else d;
      var d2 := d1[PreviousButton := !(perPage < v)][NextButton := !(v < entries)];
      if allow then d2[LastButton := v >= entries] else d2
  }

  /** The previous and first buttons are disabled when the visible entries
      do not go beyond the first page, the next and last buttons when they
      reach `entries`; the buttons `fill_items` does not append, and the
      quit button, keep their flag. */
  lemma FillDisablesByVisibleEntries(allow: bool, perPage: int, currentPage: int, entries: int, d: map<ButtonKind, bool>)
    ensures var r := FilledDisabled(allow, perPage, currentPage, entries, d);
      && (forall b :: b in d ==> b in r)
      && (forall b :: b in r && (b == QuitButton || b !in FilledKinds(allow, perPage, entries)) ==> b in d && r[b] == d[b])
      && (perPage < entries ==> var v := Visible(currentPage, perPage);
        && PreviousButton in r && (r[PreviousButton] <==> v <= perPage)
        && NextButton in r && (r[NextButton] <==> entries <= v)
        && (allow ==> FirstButton in r && (r[FirstButton] <==> v <= perPage))
        && (allow ==> LastButton in r && (r[LastButton] <==> entries <= v)))
  {
  }

  /** The flags after `quit`: every child is disabled, nothing else moves. */
  function DisableAll(children: seq<ButtonKind>, d: map<ButtonKind, bool>): (r: map<ButtonKind, bool>)
    ensures r.Keys == d.Keys
    ensures forall i :: 0 <= i < |children| && children[i] in d ==> r[children[i]]
    ensures forall b :: b in d && b !in children ==> r[b] == d[b]
  {
    map b | b in d :: b in children || d[b]
  }

  /** With at least one entry per page, the previous and first buttons are
      disabled exactly when the previous page would be numbered below zero,
      that is, on page 0 and before it. */
  lemma PreviousDisabledIffNoEarlierPage(allow: bool, perPage: int, currentPage: int, entries: int, d: map<ButtonKind, bool>)
    requires 1 <= perPage < entries
    ensures var r := FilledDisabled(allow, perPage, currentPage, entries, d);
      var previous := ResolveTarget(PreviousPage, currentPage, perPage, entries).value;
      && (r[PreviousButton] <==> previous < 0)
      && (allow ==> (r[FirstButton] <==> previous < 0))
  {
    assert Visible(currentPage, perPage) == currentPage * perPage + perPage;
    if 0 < currentPage {
      assert 0 < currentPage * perPage;
    } else {
      assert currentPage * perPage <= 0;
    }
  }

  /** With at least one entry per page, the next and last buttons are
      disabled exactly when the current page is the last page or beyond. */
  lemma NextDisabledIffOnLastPage(allow: bool, perPage: int, currentPage: int, entries: int, d: map<ButtonKind, bool>)
    requires 1 <= perPage < entries
    ensures var r := FilledDisabled(allow, perPage, currentPage, entries, d);
      var last := ResolveTarget(LastPage, currentPage, perPage, entries).value;
      && (r[NextButton] <==> last <= currentPage)
      && (allow ==> (r[LastButton] <==> last <= currentPage))
  {
    var last := ResolveTarget(LastPage, currentPage, perPage, entries).value;
    var v := Visible(currentPage, perPage);
    if last <= currentPage {
      MultiplyMonotone(last + 1, currentPage + 1, perPage);
    } else {
      MultiplyMonotone(currentPage + 1, last, perPage);
    }
  }

  lemma MultiplyMonotone(a: int, b: int, p: int)
    requires a <= b && 0 <= p
    ensures a * p <= b * p
  {
    assert b * p - a * p == (b - a) * p;
  }

  /** Under in-order paging the next button is enabled exactly when the next
      page holds items. */
  lemma NextEnabledIffNextSliceNonEmpty<T>(items: seq<T>, allow: bool, perPage: int, currentPage: int, d: map<ButtonKind, bool>)
    requires 1 <= perPage < |items| && 0 <= currentPage
    ensures !FilledDisabled(allow, perPage, currentPage, |items|, d)[NextButton]
        <==> Slice(items, perPage, currentPage + 1) != []
  {
    assert (currentPage + 2) * perPage == (currentPage + 1) * perPage + perPage;
  }

  /** The last page of a non-empty collection is its final non-empty slice. */
  lemma LastPageIsFinalNonEmptySlice<T>(items: seq<T>, perPage: int, currentPage: int)
    requires 1 <= perPage && 1 <= |items|
    ensures var last := ResolveTarget(LastPage, currentPage, perPage, |items|).value;
      && 0 <= last
      && Slice(items, perPage, last) != []
      && Slice(items, perPage, last + 1) == []
  {
    var last := ResolveTarget(LastPage, currentPage, perPage, |items|).value;
    if last < 0 {
      MultiplyMonotone(last + 1, 0, perPage);
    }
    assert (last + 2) * perPage == (last + 1) * perPage + perPage;
  }

  /** Twenty-five entries, ten per page: the last page is 2; on page 0 the
      previous and first buttons are off and next and last on; on page 2
      next is off. */
  lemma TwentyFiveEntriesTenPerPage(d: map<ButtonKind, bool>)
    ensures ResolveTarget(LastPage, 0, 10, 25) == Ok(2)
    ensures var r := FilledDisabled(true, 10, 0, 25, d);
      r[PreviousButton] && r[FirstButton] && !r[NextButton] && !r[LastButton]
    ensures FilledDisabled(false, 10, 2, 25, d)[NextButton]
  {
  }
}
