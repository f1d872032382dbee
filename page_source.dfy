/** `PageSource.prepare_page` and the one concrete page source of the
    library, `AsyncIteratorPageSource`, as a class whose fields the page
    fetches update in place. */
module PageSources {
  import opened MenuErrors
  import opened LazyPages

  /** What `prepare_page` leaves behind: its outcome, the cursor of the page
      cache, and `current_page`. */
  datatype Prepared<T, R> = Prepared(result: Result<R>, cursor: Cursor<T>, currentPage: int)

  /** `prepare_page(index)`: fetch the page; an empty page raises
      `NothingOnThatPage` before anything is formatted or committed;
      otherwise the page is formatted and `current_page` becomes `index`. */
  function Prepare<T, R>(perPage: int, format: seq<T> -> R, c: Cursor<T>, currentPage: int, index: int): (p: Prepared<T, R>)
    requires c.pos <= |c.items|
    ensures p.cursor == Fetch(perPage, c, index).after
    ensures p.result.Err? <==> Fetch(perPage, c, index).page == []
    ensures p.result.Err? ==> p.result.error == NothingOnThatPage && p.currentPage == currentPage
    ensures p.result.Ok? ==> p.result.value == format(Fetch(perPage, c, index).page) && p.currentPage == index
  {
    var f := Fetch(perPage, c, index);
    if f.page == [] then Prepared(Err(NothingOnThatPage), f.after, currentPage)
    else Prepared(Ok(format(f.page)), f.after, index)
  }

  /** A page is only ever committed if it has a non-negative number, so
      `current_page` never goes below zero. */
  lemma PreparedPageIsNonNegative<T, R>(perPage: int, format: seq<T> -> R, c: Cursor<T>, currentPage: int, index: int)
    requires c.pos <= |c.items| && 0 <= currentPage
    ensures Prepare(perPage, format, c, currentPage, index).result.Ok? ==> 0 <= index
    ensures 0 <= Prepare(perPage, format, c, currentPage, index).currentPage
  {
  }

  /** `AsyncIteratorPageSource`. The abstract `format_page` and
      `get_num_entries` of a concrete subclass are given to the constructor;
      the async generator is the sequence `items` it will yield plus the
      number `pos` of items consumed so far. */
  class IteratorPageSource<T, R> {
    const perPage: int
    const numEntries: int
    const format: seq<T> -> R
    const items: seq<T>
    var pos: nat
    var cache: map<int, seq<T>>
    var currentPage: int

    ghost predicate Valid()
      reads this
    {
      WellFormed(perPage, State()) && 0 <= currentPage
    }

    /** The page cache and the producer, as a value. */
    function State(): Cursor<T>
      reads this
    {
      Cursor(items, pos, cache)
    }

    constructor (items: seq<T>, perPage: int, numEntries: int, format: seq<T> -> R)
      ensures Valid()
      ensures State() == Fresh(items) && currentPage == 0
      ensures this.perPage == perPage && this.numEntries == numEntries && this.format == format
    {
      this.items := items;
      this.perPage := perPage;
      this.numEntries := numEntries;
      this.format := format;
      pos := 0;
      cache := map[];
      currentPage := 0;
    }

    /** `get_page`: returns the page and updates the producer and the cache
        exactly as `Fetch` says. */
    method GetPage(page: int) returns (data: seq<T>)
      requires Valid()
      modifies this`pos, this`cache
      ensures Valid()
      ensures Fetched(data, State()) == Fetch(perPage, old(State()), page)
    {
      if page < 0 {
        return [];
      }
      if page in cache {
        return cache[page];
      }
      data := [];
      var counter := 0;
      while pos < |items|
        invariant old(pos) <= pos <= |items|
        invariant data == items[old(pos)..pos]
        invariant counter == |data|
        invariant 1 <= perPage ==> counter < perPage
        invariant cache == old(cache)
      {
        data := data + [items[pos]];
        pos := pos + 1;
        if counter == perPage - 1 {
          break;
        }
        counter := counter + 1;
      }
      assert data == Pull(perPage, items, old(pos));
      cache := cache[page := data];
    }

    /** `prepare_page`: the only place `current_page` changes. */
    method PreparePage(index: int) returns (r: Result<R>)
      requires Valid()
      modifies this`pos, this`cache, this`currentPage
      ensures Valid()
      ensures Prepared(r, State(), currentPage) == Prepare(perPage, format, old(State()), old(currentPage), index)
    {
      var page := GetPage(index);
      if page == [] {
        return Err(NothingOnThatPage);
      }
      r := Ok(format(page));
      currentPage := index;
    }
  }
}
