/** A paginator session on values: the state `send_page`, `quit` and a
    button press leave behind. The `Paginator` class is proved to follow
    these functions step by step. */
module Session {
  import opened MenuErrors
  import opened LazyPages
  import opened PageSources
  import opened Navigation

  /** What never changes in a session: the source's `per_page`, its
      `get_num_entries` and `format_page`, and `allow_first_and_last`. */
  datatype Config<!T, R> = Config(perPage: int, numEntries: int, format: seq<T> -> R, allowFirstAndLast: bool)

  /** What a session changes: the source's cache and `current_page`, the
      view, whether the view is stopped, the author of the context once
      the session has started, and whether the paginator's message exists
      (`self.message`, set by the first page sent successfully). */
  datatype State<T> = State(cursor: Cursor<T>, currentPage: int, view: View, stopped: bool, owner: Option<int>, sent: bool)

  /** What a button press comes to. */
  datatype Outcome<R> = Shown(page: R) | Failed(error: MenuError) | Closed | NotYours | Ignored

  /** The cursor is well formed, `current_page` is never negative, every
      button has a flag, and the quit button stays enabled until the view
      stops: `fill_items` never writes its flag and only `quit` does. */
  ghost predicate Valid<T, R>(cfg: Config<T, R>, s: State<T>) {
    && WellFormed(cfg.perPage, s.cursor) && 0 <= s.currentPage && Complete(s.view.disabled)
    && (!s.stopped ==> !s.view.disabled[QuitButton])
  }

  /** A new paginator over a fresh source: the view holds the five declared
      buttons, all enabled. */
  function Initial<T, R>(cfg: Config<T, R>, items: seq<T>): (s: State<T>)
    ensures Valid(cfg, s)
  {
    AllButtonsAreDeclared();
    State(Fresh(items), 0,
          View([FirstButton, PreviousButton, NextButton, LastButton, QuitButton],
               map b | b in AllButtons :: false),
          false, None, false)
  }

  /** `clear_items` followed by `fill_items(get_num_entries())` on page `currentPage`. */
  function Refill<T, R>(cfg: Config<T, R>, currentPage: int, v: View): View {
    View(FilledKinds(cfg.allowFirstAndLast, cfg.perPage, cfg.numEntries),
         FilledDisabled(cfg.allowFirstAndLast, cfg.perPage, currentPage, cfg.numEntries, v.disabled))
  }

  /** `send_page(go_to)`: resolve the request, prepare that page, and on
      success rebuild the buttons for the new page. Any failure leaves the
      view and `current_page` as they were. */
  function SendPage<T, R>(cfg: Config<T, R>, s: State<T>, goTo: PageGoTo): (r: (Result<R>, State<T>))
    requires s.cursor.pos <= |s.cursor.items|
    ensures Valid(cfg, s) ==> Valid(cfg, r.1)
    ensures r.1.stopped == s.stopped && r.1.owner == s.owner
    ensures r.1.sent == (s.sent || r.0.Ok?)
    ensures r.0.Err? ==> r.1.currentPage == s.currentPage && r.1.view == s.view
  {
    match ResolveTarget(goTo, s.currentPage, cfg.perPage, cfg.numEntries)
    case Err(e) => (Err(e), s)
    case Ok(index) =>
      var p := Prepare(cfg.perPage, cfg.format, s.cursor, s.currentPage, index);
      if p.result.Err? then (p.result, s.(cursor := p.cursor))
      else
        FillDisablesByVisibleEntries(cfg.allowFirstAndLast, cfg.perPage, p.currentPage, cfg.numEntries, s.view.disabled);
        (p.result, s.(cursor := p.cursor, currentPage := p.currentPage, view := Refill(cfg, p.currentPage, s.view), sent := true))
  }

  /** The three ways `send_page` ends, one lemma each. */
  lemma SendPageUnresolved<T, R>(cfg: Config<T, R>, s: State<T>, goTo: PageGoTo)
    requires s.cursor.pos <= |s.cursor.items|
    requires ResolveTarget(goTo, s.currentPage, cfg.perPage, cfg.numEntries).Err?
    ensures SendPage(cfg, s, goTo) == (Err(ZeroDivision), s)
  {
  }

  lemma SendPageEmpty<T, R>(cfg: Config<T, R>, s: State<T>, goTo: PageGoTo, index: int, p: Prepared<T, R>)
    requires s.cursor.pos <= |s.cursor.items|
    requires ResolveTarget(goTo, s.currentPage, cfg.perPage, cfg.numEntries) == Ok(index)
    requires p == Prepare(cfg.perPage, cfg.format, s.cursor, s.currentPage, index) && p.result.Err?
    ensures SendPage(cfg, s, goTo) == (p.result, s.(cursor := p.cursor))
  {
  }

  lemma SendPageShown<T, R>(cfg: Config<T, R>, s: State<T>, goTo: PageGoTo, index: int, p: Prepared<T, R>)
    requires s.cursor.pos <= |s.cursor.items|
    requires ResolveTarget(goTo, s.currentPage, cfg.perPage, cfg.numEntries) == Ok(index)
    requires p == Prepare(cfg.perPage, cfg.format, s.cursor, s.currentPage, index) && p.result.Ok?
    ensures SendPage(cfg, s, goTo) == (p.result, s.(cursor := p.cursor, currentPage := index, view := Refill(cfg, index, s.view), sent := true))
  {
  }

  /** `quit`: every child button is disabled, none is removed, and the view
      stops. */
  function Quit<T>(s: State<T>): (q: State<T>)
    ensures q.view.children == s.view.children && q.stopped
    ensures q.view.disabled.Keys == s.view.disabled.Keys
    ensures forall b :: b in s.view.children && b in s.view.disabled ==> q.view.disabled[b]
    ensures forall b :: b in s.view.disabled && b !in s.view.children ==> q.view.disabled[b] == s.view.disabled[b]
    ensures q.cursor == s.cursor && q.currentPage == s.currentPage && q.owner == s.owner && q.sent == s.sent
  {
    s.(view := View(s.view.children, DisableAll(s.view.children, s.view.disabled)), stopped := true)
  }

  /** `start(ctx)`: remember the author, then send the current page. */
  function Start<T, R>(cfg: Config<T, R>, s: State<T>, author: int): (r: (Result<R>, State<T>))
    requires s.cursor.pos <= |s.cursor.items|
    ensures r.1.owner == Some(author) && r.1.stopped == s.stopped
    ensures r.1.sent == (s.sent || r.0.Ok?)
    ensures r.0.Ok? ==> r.1.currentPage == s.currentPage && r.1.view == Refill(cfg, s.currentPage, s.view)
    ensures r.0.Err? ==> r.1.currentPage == s.currentPage && r.1.view == s.view
  {
    SendPage(cfg, s.(owner := Some(author)), CurrentPage)
  }

  /** `interaction_check`: the press is accepted exactly when it comes from
      the author of the context the paginator was started with. */
  function InteractionCheck(owner: Option<int>, user: int): (ok: bool)
    requires owner.Some?
    ensures ok <==> owner == Some(user)
  {
    user == owner.value
  }

  /** Whether a press of `b` reaches the paginator at all: the view is not
      stopped, its message exists, and `b` is shown enabled. */
  predicate Delivered<T>(s: State<T>, b: ButtonKind) {
    !s.stopped && s.sent && s.owner.Some? && b in s.view.children && b in s.view.disabled && !s.view.disabled[b]
  }

  /** A press of button `b` by `user`. A press that is not delivered changes
      nothing; otherwise `interaction_check` lets only the context's author
      through, and the button's callback runs. */
  function Press<T, R>(cfg: Config<T, R>, s: State<T>, user: int, b: ButtonKind): (r: (Outcome<R>, State<T>))
    requires s.cursor.pos <= |s.cursor.items|
    ensures r.0 == Ignored <==> !Delivered(s, b)
    ensures r.0 == NotYours <==> Delivered(s, b) && s.owner != Some(user)
    ensures r.0 == Ignored || r.0 == NotYours ==> r.1 == s
    ensures r.0 == Closed <==> Delivered(s, b) && s.owner == Some(user) && b == QuitButton
    ensures r.0 == Closed ==> r.1 == Quit(s)
    ensures Delivered(s, b) && s.owner == Some(user) && b != QuitButton ==>
      var (result, next) := SendPage(cfg, s, TargetOf(b));
      && r.1 == next
      && (r.0.Shown? <==> result.Ok?)
      && (r.0.Shown? ==> result == Ok(r.0.page))
      && (r.0.Failed? ==> result == Err(r.0.error))
    ensures Valid(cfg, s) ==> Valid(cfg, r.1)
  {
    if !Delivered(s, b) then
      (Ignored, s)
    else if !InteractionCheck(s.owner, user) then
      (NotYours, s)
    else if b == QuitButton then
      (Closed, Quit(s))
    else
      var (result, next) := SendPage(cfg, s, TargetOf(b));
      (if result.Ok? then Shown(result.value) else Failed(result.error), next)
  }

  /** Anyone but the author changes nothing. */
  lemma OnlyTheOwnerMovesTheSession<T, R>(cfg: Config<T, R>, s: State<T>, user: int, b: ButtonKind)
    requires s.cursor.pos <= |s.cursor.items| && s.owner != Some(user)
    ensures Press(cfg, s, user, b).1 == s
    ensures Press(cfg, s, user, b).0 == NotYours || Press(cfg, s, user, b).0 == Ignored
  {
  }

  /** After the quit button, every button shown is disabled and no later
      press has any effect. */
  lemma QuitIsTerminal<T, R>(cfg: Config<T, R>, s: State<T>, user: int, later: int, b: ButtonKind)
    requires Valid(cfg, s) && Press(cfg, s, user, QuitButton).0 == Closed
    ensures var q := Press(cfg, s, user, QuitButton).1;
      && q.view.children == s.view.children
      && (forall i :: 0 <= i < |q.view.children| ==> q.view.disabled[q.view.children[i]])
      && Press(cfg, q, later, b) == (Ignored, q)
  {
  }

  /** `start` on a new paginator over a producer that yields at least one
      item shows its first `per_page` items as page 0 and creates the
      message; over an empty producer it fails with `NothingOnThatPage`, no
      message exists, and no press reaches the view. */
  lemma {:induction false} StartShowsFirstPage<T, R>(cfg: Config<T, R>, items: seq<T>, author: int)
    requires 1 <= cfg.perPage
    ensures var s := Initial(cfg, items);
      var (r, next) := Start(cfg, s, author);
      && (0 < |items| ==>
            && r == Ok(cfg.format(Slice(items, cfg.perPage, 0)))
            && next.currentPage == 0 && next.sent
            && next.view == Refill(cfg, 0, s.view)
            && SequentialUpTo(cfg.perPage, next.cursor, 1))
      && (|items| == 0 ==>
            && r == Err(NothingOnThatPage) && !next.sent
            && forall user, b :: Press(cfg, next, user, b) == (Ignored, next))
  {
    var s := Initial(cfg, items);
    var started := s.(owner := Some(author));
    assert SequentialUpTo(cfg.perPage, started.cursor, 0);
    if 0 < |items| {
      InOrderRequestShowsItsSlice(cfg, started, CurrentPage, 0);
    } else {
      var f := Fetch(cfg.perPage, started.cursor, 0);
      assert f.page == [];
    }
  }

  function Max(a: int, b: int): int {
    if a <= b then b else a
  }

  /** On a session that has pulled pages `0 .. k-1` in order, a request for
      a page up to `k` that holds items succeeds and shows exactly that
      slice; the cache stays in order. */
  lemma {:induction false} InOrderRequestShowsItsSlice<T, R>(cfg: Config<T, R>, s: State<T>, goTo: PageGoTo, k: int)
    requires 1 <= cfg.perPage && SequentialUpTo(cfg.perPage, s.cursor, k)
    requires ResolveTarget(goTo, s.currentPage, cfg.perPage, cfg.numEntries).Ok?
    requires var t := ResolveTarget(goTo, s.currentPage, cfg.perPage, cfg.numEntries).value;
      0 <= t <= k && t * cfg.perPage < |s.cursor.items|
    ensures var t := ResolveTarget(goTo, s.currentPage, cfg.perPage, cfg.numEntries).value;
      var (r, next) := SendPage(cfg, s, goTo);
      && r == Ok(cfg.format(Slice(s.cursor.items, cfg.perPage, t)))
      && next.currentPage == t
      && next.view == Refill(cfg, t, s.view)
      && SequentialUpTo(cfg.perPage, next.cursor, Max(k, t + 1))
  {
    var t := ResolveTarget(goTo, s.currentPage, cfg.perPage, cfg.numEntries).value;
    var slice := Slice(s.cursor.items, cfg.perPage, t);
    FetchAfterSequential(cfg.perPage, s.cursor, k, t);
    SliceBeforeEndIsNonEmpty(s.cursor.items, cfg.perPage, t);
    var f := Fetch(cfg.perPage, s.cursor, t);
    assert f.page == slice;
    var p := Prepare(cfg.perPage, cfg.format, s.cursor, s.currentPage, t);
    assert p == Prepared(Ok(cfg.format(slice)), f.after, t);
    SendPageShown(cfg, s, goTo, t, p);
    if t < k {
      assert f.after == s.cursor;
    }
  }

  /** When the entry count is the producer's length and pages were pulled in
      order up to past the current one, pressing an enabled first, previous
      or next button shows exactly the slice that page stands for. */
  lemma {:induction false} EnabledStepButtonsShowTheirSlice<T, R>(cfg: Config<T, R>, s: State<T>, b: ButtonKind, k: int)
    requires 1 <= cfg.perPage < cfg.numEntries == |s.cursor.items|
    requires 0 <= s.currentPage < k && SequentialUpTo(cfg.perPage, s.cursor, k)
    requires s.currentPage * cfg.perPage < cfg.numEntries
    requires b == FirstButton || b == PreviousButton || b == NextButton
    requires b == NextButton || cfg.allowFirstAndLast || b == PreviousButton
    requires !FilledDisabled(cfg.allowFirstAndLast, cfg.perPage, s.currentPage, cfg.numEntries, s.view.disabled)[b]
    ensures var t := ResolveTarget(TargetOf(b), s.currentPage, cfg.perPage, cfg.numEntries).value;
      && 0 <= t
      && SendPage(cfg, s, TargetOf(b)).0 == Ok(cfg.format(Slice(s.cursor.items, cfg.perPage, t)))
      && SendPage(cfg, s, TargetOf(b)).1.currentPage == t
  {
    var p, cur := cfg.perPage, s.currentPage;
    var t := ResolveTarget(TargetOf(b), cur, p, cfg.numEntries).value;
    if b == NextButton {
      NextEnabledIffNextSliceNonEmpty(s.cursor.items, cfg.allowFirstAndLast, p, cur, s.view.disabled);
      assert (cur + 1) * p < |s.cursor.items|;
    } else {
      PreviousDisabledIffNoEarlierPage(cfg.allowFirstAndLast, p, cur, cfg.numEntries, s.view.disabled);
      MultiplyMonotone(t, cur, p);
      assert cur * p < (cur + 1) * p;
    }
    InOrderRequestShowsItsSlice(cfg, s, TargetOf(b), k);
  }

  /** A source over 0..49 at ten per page, with 50 entries and first and
      last allowed: after `start`, the last button goes to page 4 but shows
      items 10..19, because the producer is not seeked to page 4's offset. */
  lemma FixtureLastButtonMisfiles(format: seq<int> -> int, author: int)
    ensures var cfg := Config(10, 50, format, true);
      var (r0, s0) := Start(cfg, Initial(cfg, Fixture()), author);
      var (o, s1) := Press(cfg, s0, author, LastButton);
      && r0 == Ok(format(Fixture()[0..10]))
      && o == Shown(format(Fixture()[10..20]))
      && s1.currentPage == 4
      && s1.cursor.cache[4] != Slice(Fixture(), 10, 4)
  {
    var cfg := Config(10, 50, format, true);
    var (r0, s0) := Start(cfg, Initial(cfg, Fixture()), author);
    assert s0.view.children == [FirstButton, PreviousButton, NextButton, LastButton, QuitButton];
    assert !s0.view.disabled[LastButton];
    var (o, s1) := Press(cfg, s0, author, LastButton);
    assert s1.cursor.cache[4][0] == 10;
    assert Slice(Fixture(), 10, 4)[0] == 40;
  }
}
