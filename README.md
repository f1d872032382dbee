# better_menus pagination engine, modelled in Dafny

This project models the pagination core of `discord.ext.better_menus`, with
Discord itself left out. The core has three parts:

- `PageSource.prepare_page`: the template step that fetches a page and
  refuses an empty one with `NothingOnThatPage`. On success it formats the
  page and commits `current_page`.
- `AsyncIteratorPageSource`: a page source over a forward-only async
  generator. It memoises every page it pulls in a `Dict[int, List[T]]`.
- `Paginator`: the view that drives a source. It resolves `PageGoTo`
  requests to page numbers. It lays out and disables its five buttons
  (`<<`, `Back`, `Next`, `>>`, `Quit`). It disables them all on quit. It
  lets only the author of the invoking context press them.

Files and modules:

- `menu_errors.dfy` (`MenuErrors`): the error kinds and the `Result` and
  `Option` wrappers.
- `lazy_pages.dfy` (`LazyPages`): the page cache on values. The generator is
  the sequence `items` it will yield plus a cursor `pos` that only moves
  forward. The cache is a `map<int, seq<T>>`. `Fetch` is `get_page`. `Slice`
  is the reference meaning of "page i". `Walk` runs a series of requests.
- `page_source.dfy` (`PageSources`): `Prepare` (`prepare_page` on values)
  and the class `IteratorPageSource`. The class keeps the generator cursor,
  the cache and `current_page` as fields. Its `GetPage` keeps the source's
  `counter` loop. Both methods are proved to follow `Fetch` and `Prepare`.
- `navigation.dfy` (`Navigation`): `PageGoTo`, the ceiling division,
  `get_go_to_index`, the button layout and disabled flags of `fill_items`,
  and the flags after `quit`. The lemmas here tie each button's flag to the
  page its request resolves to.
- `session.dfy` (`Session`): a paginator session as a state machine on
  values: `send_page`, `quit`, `start` and a button press. The lemmas here
  cover authorisation, quit being terminal, and in-order navigation.
- `paginator.dfy` (`Paginators`): the class `Paginator`. Its fields are the
  view's `children`, each button's `disabled` attribute, whether the view
  is stopped, the author and whether the message exists. `SendPage`,
  `Quit`, `Start` and `Dispatch` are proved to move the class's state
  exactly as the `Session` functions say. `ClearItems`, `AddItem` and
  `FillItems` state their effect on the view directly, `FillItems` through
  `FilledKinds` and `FilledDisabled`.

The model follows the code in these places:

- A cache miss continues from wherever the generator stands. It does not
  seek to `page * per_page`. Pages asked for in order 0, 1, 2, … are the
  consecutive slices (`SequentialWalk`). A page asked for ahead of the
  generator gets the next unread items, filed under the wrong number
  (`FetchAfterSequential`, `FixtureOutOfOrder`). The `>>` button triggers
  this (`FixtureLastButtonMisfiles`). Take a source over 0..49 at ten per
  page, with 50 entries and first/last allowed. From page 0, `>>` shows
  items 10..19 as page 4.
- When `entries <= per_page`, `fill_items` appends no button at all, not
  even `Quit`.
- A failed fetch can still change the cache. Asking past the end pulls
  nothing and caches `[]` under that page number.
- `per_page` is never checked. With `per_page < 1`, a cache miss drains the
  generator, because the counter never equals `per_page - 1`. With
  `per_page == 0`, resolving the last page divides by zero. That case is
  `Err(ZeroDivision)`.
- The source has no list-backed page source. `GetPageSource` is an empty
  subclass. `Slice` is only used as a reference definition.

## Model

| member | source | states |
|---|---|---|
| `LazyPages.Pull` | discord/ext/better_menus/__init__.py:85-92 | a miss takes the next `min(per_page, remaining)` unconsumed items in order; with `per_page < 1` it drains the generator |
| `LazyPages.Fetch` | discord/ext/better_menus/__init__.py:76-95 | the generator only moves forward and what it yields is what is returned; the cache is append-only, gains at most the requested page and holds the returned page under it; the cursor invariant is kept |
| `LazyPages.NegativePageIsEmpty` | discord/ext/better_menus/__init__.py:77-78 | a negative page is `[]` and leaves the generator and the cache unchanged |
| `LazyPages.CachedPageIsReturned` | discord/ext/better_menus/__init__.py:80-83 | a cached page is returned as stored and nothing is consumed |
| `LazyPages.MissPullsNextItems` | discord/ext/better_menus/__init__.py:85-95 | a miss with `per_page >= 1` returns the next `min(per_page, remaining)` items, advances by as many and adds only that cache entry |
| `LazyPages.FetchIsIdempotent` | discord/ext/better_menus/__init__.py:80-95 | asking for the same page twice returns the same items and the second call changes nothing |
| `LazyPages.MissIgnoresPageNumber` | discord/ext/better_menus/__init__.py:85-95 | on a miss the page number has no influence on which items come back |
| `LazyPages.Slice` | discord/ext/better_menus/__init__.py:85-92 | the reference meaning of page `i`, items `[i*per_page, (i+1)*per_page)` cut at the end, is never longer than `per_page` |
| `LazyPages.FetchAfterSequential` | discord/ext/better_menus/__init__.py:76-95 | after pages `0..k-1` were pulled in order, an earlier page comes from the cache, page `k` is the `k`-th slice and keeps the cache in order, and a later page also gets the `k`-th slice |
| `LazyPages.Walk` | discord/ext/better_menus/__init__.py:76-95 | a series of `get_page` calls returns one page per request and only moves the generator forward |
| `LazyPages.SequentialWalk` | discord/ext/better_menus/__init__.py:85-95 | pages 0, 1, …, k-1 requested in order from a fresh source are the consecutive `per_page`-sized slices of the generator's output |
| `LazyPages.Fixture` | tests/__init__.py:6-8 | the example generator yields 0..49 |
| `LazyPages.FixtureInOrder` | tests/__init__.py:6-20 | with 10 per page, page 0 is 0..9, asking again consumes nothing, then page 1 is 10..19 |
| `LazyPages.FixtureOutOfOrder` | tests/__init__.py:6-20 | asking a fresh source for page 2 first caches 0..9 as page 2, not the slice 20..29 |
| `PageSources.Prepare` | discord/ext/better_menus/__init__.py:52-61 | `NothingOnThatPage` exactly when the fetched page is empty, and then `current_page` is kept; otherwise the result is `format_page` of the fetched page and `current_page` becomes `index` |
| `PageSources.PreparedPageIsNonNegative` | discord/ext/better_menus/__init__.py:52-61 | only a non-negative page is ever committed, so `current_page` stays non-negative |
| `PageSources.IteratorPageSource.constructor` | discord/ext/better_menus/__init__.py:69-74 | a new source has consumed nothing, has an empty cache and sits on page 0 |
| `PageSources.IteratorPageSource.GetPage` | discord/ext/better_menus/__init__.py:76-95 | the counter loop returns and caches exactly what `Fetch` says and changes only the cursor and the cache, never `current_page` |
| `PageSources.IteratorPageSource.PreparePage` | discord/ext/better_menus/__init__.py:52-61 | the outcome, the cache and `current_page` are those of `Prepare` |
| `Navigation.CeilDiv` | discord/ext/better_menus/__init__.py:166 | `math.ceil(n / p)` is the least integer at or above `n / p`, for either sign of `p` |
| `Navigation.ResolveTarget` | discord/ext/better_menus/__init__.py:158-168 | current, next, previous and first resolve to `current_page`, `+1`, `-1` and `0` with no clamping; last is the page holding entry `n`; only last with `per_page == 0` fails |
| `Navigation.FilledKinds` | discord/ext/better_menus/__init__.py:117-154 | the buttons `fill_items` appends (no contract of its own; `FilledButtonsInDeclarationOrder` states its properties) |
| `Navigation.FilledDisabled` | discord/ext/better_menus/__init__.py:121-152 | the flags `fill_items` writes (no contract of its own; `FillDisablesByVisibleEntries` states its properties) |
| `Navigation.TargetOf` | discord/ext/better_menus/__init__.py:207-222 | the request each navigation button's callback makes: `<<` first, `Back` previous, `Next` next, `>>` last |
| `Navigation.FilledButtonsInDeclarationOrder` | discord/ext/better_menus/__init__.py:117-154 | no buttons for a single page; otherwise previous, next and quit, plus first and last exactly when allowed, each once, in declaration order |
| `Navigation.FillDisablesByVisibleEntries` | discord/ext/better_menus/__init__.py:121-152 | previous and first are disabled iff `visible <= per_page`; next and last iff `visible >= entries`; quit and the buttons not appended keep their flag |
| `Navigation.PreviousDisabledIffNoEarlierPage` | discord/ext/better_menus/__init__.py:126-139 | with `per_page >= 1`, previous (and first) are disabled exactly when the previous page would be numbered below 0 |
| `Navigation.NextDisabledIffOnLastPage` | discord/ext/better_menus/__init__.py:141-152 | with `per_page >= 1`, next (and last) are disabled exactly when `current_page` is at or past the page `get_go_to_index(last)` resolves to |
| `Navigation.NextEnabledIffNextSliceNonEmpty` | discord/ext/better_menus/__init__.py:141-144 | the next button is enabled exactly when the next slice of the entries holds items |
| `Navigation.LastPageIsFinalNonEmptySlice` | discord/ext/better_menus/__init__.py:165-166 | for a non-empty collection the last page is non-negative, holds items, and the page after it is empty |
| `Navigation.TwentyFiveEntriesTenPerPage` | discord/ext/better_menus/__init__.py:117-168 | 25 entries at 10 per page: last is page 2; on page 0 previous and first are off and next and last on; on page 2 next is off |
| `Navigation.DisableAll` | discord/ext/better_menus/__init__.py:199-203 | every child button ends disabled, no other flag changes |
| `Session.Initial` | discord/ext/better_menus/__init__.py:104-114 | a new paginator over a fresh source, with no message yet, satisfies the session invariant, which includes the quit button being enabled while the view runs |
| `Session.Refill` | discord/ext/better_menus/__init__.py:177-179 | `clear_items` then `fill_items(get_num_entries())`: the children are `FilledKinds` and the flags `FilledDisabled` for the new page (no contract of its own; `SendPageShown` and `FillDisablesByVisibleEntries` state its effect) |
| `Session.SendPage` | discord/ext/better_menus/__init__.py:170-179 | the session invariant is kept, the quit button included; the message exists afterwards exactly when it did before or the page was shown; a failure leaves `current_page` and the buttons as they were |
| `Session.SendPageUnresolved` | discord/ext/better_menus/__init__.py:166 | a last-page request with `per_page == 0` fails with nothing changed |
| `Session.SendPageEmpty` | discord/ext/better_menus/__init__.py:174-175 | an empty page fails after the fetch, before the buttons are touched |
| `Session.SendPageShown` | discord/ext/better_menus/__init__.py:174-179 | a page that holds items commits its number and rebuilds the buttons for it |
| `Session.Quit` | discord/ext/better_menus/__init__.py:199-205 | every child is disabled, none is removed, the view stops; the flags of buttons that are not children, the page, the cache, the author and the message are untouched |
| `Session.Start` | discord/ext/better_menus/__init__.py:229-231 | the context author becomes the owner and the current page is sent: on success the buttons are rebuilt for `current_page` and the message exists; on failure the view is unchanged |
| `Session.StartShowsFirstPage` | discord/ext/better_menus/__init__.py:229-231 | on a new paginator with `per_page >= 1`, `start` shows the producer's first `per_page` items as page 0; over an empty producer it fails with `NothingOnThatPage`, no message exists and no press reaches the view |
| `Session.InteractionCheck` | discord/ext/better_menus/__init__.py:237-243 | a press passes exactly when its user is the author of the context |
| `Session.Press` | discord/ext/better_menus/__init__.py:207-243 | a press is ignored exactly when it is not delivered (stopped view, no message, button not shown enabled) and refused exactly when a delivered press is not the author's; both change nothing; the author's quit press is `quit`; the author's navigation press is `send_page` for that button's target, shown exactly when the page is prepared; the invariant is kept |
| `Session.OnlyTheOwnerMovesTheSession` | discord/ext/better_menus/__init__.py:237-243 | a press by anyone but the context author leaves the whole session unchanged |
| `Session.QuitIsTerminal` | discord/ext/better_menus/__init__.py:199-205 | after quit every shown button is disabled and any later press has no effect |
| `Session.InOrderRequestShowsItsSlice` | discord/ext/better_menus/__init__.py:170-179 | on a session that pulled pages `0..k-1` in order, a request for a non-empty page up to `k` shows exactly that slice and keeps the cache in order |
| `Session.EnabledStepButtonsShowTheirSlice` | discord/ext/better_menus/__init__.py:117-179 | when the entry count is the generator's length and pages `0..k-1` were pulled in order with `current_page < k`, an enabled first, previous or next button never fails and shows the slice of the page it resolves to |
| `Session.FixtureLastButtonMisfiles` | discord/ext/better_menus/__init__.py:85-95 | on a source over 0..49 with 50 entries, ten per page and first/last allowed, the `>>` button lands on page 4 but shows items 10..19 |
| `Paginators.Paginator.constructor` | discord/ext/better_menus/__init__.py:104-114 | the view starts with its five declared buttons, all enabled, not stopped, with no owner and no message |
| `Paginators.Paginator.ClearItems` | discord/ext/better_menus/__init__.py:177 | the view has no children |
| `Paginators.Paginator.AddItem` | discord/ext/better_menus/__init__.py:124 | the button becomes the last child |
| `Paginators.Paginator.FillItems` | discord/ext/better_menus/__init__.py:117-154 | appends exactly the buttons of `FilledKinds` and sets exactly the flags of `FilledDisabled` |
| `Paginators.Paginator.SendPage` | discord/ext/better_menus/__init__.py:170-192 | on a started paginator, the outcome and the new source, view and message state are those of `Session.SendPage` |
| `Paginators.Paginator.Quit` | discord/ext/better_menus/__init__.py:199-205 | the loop over the children leaves the state of `Session.Quit` |
| `Paginators.Paginator.Start` | discord/ext/better_menus/__init__.py:229-231 | the outcome and the new state are those of `Session.Start` |
| `Paginators.Paginator.Dispatch` | discord/ext/better_menus/__init__.py:207-243 | `interaction_check` and the button callbacks leave the outcome and the state of `Session.Press` |

## Left out

- Discord transport is not modelled. This covers `ctx.send`, `interaction.response.edit_message` and `send_message`, the embed-or-content choice, and the `message` object (`__init__.py:183-197`, `227`, `242`). `send_page` is modelled up to the page it would hand over. Only whether the message exists is kept, as `sent`.
- `send_page` before `start` is not modelled. `ctx` is first assigned at `__init__.py:230`, so without an interaction the call raises at `:171`. With an interaction it commits the page and then raises at `:192`. `Paginators.Paginator.SendPage` requires a recorded author, as every caller in the source runs after `start`. `Session.SendPage` is total and gives a value for a state with no author, but neither `Session.Start` nor `Session.Press` reaches that state.
- `async`/`await`, the view `timeout` and `on_error` are left out. Every call is taken as atomic and sequential.
- `format_page` and `get_num_entries` are abstract in the source. They are constructor parameters: a total function and a fixed count. Side effects of a concrete `format_page` (the example prints) are not modelled.
- `Navigation.CeilDiv`: computes the exact ceiling. It ignores float rounding of `n / per_page` for counts beyond 2^53.
- `GetPageSource` is an empty subclass with no behaviour.
- The integer values 1..5 of the `PageGoTo` enumeration are left out. The logic only compares members.
- Delivery of button presses is `discord.ui.View` behaviour, not code of this library. `Session.Press` assumes it delivers nothing to a stopped view, nothing before a page was sent successfully (no message exists yet), and nothing for a button that is not shown enabled.
- The producer is taken as finite: `items` is a sequence. With `per_page < 1` a cache miss on an endless async generator never returns, and that case is not modelled.
- The example subclass declares `get_num_entries` without `self` and returns 10. It is not used as a source of entry counts.
