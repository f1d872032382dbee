/** The page cache of `AsyncIteratorPageSource`, on values: a forward-only
    producer, how far it has been consumed, and the pages memoised so far. */
module LazyPages {

  /** `items` is everything the producer will ever yield, in order; `pos` is
      how many of them have been consumed; `cache` maps page numbers to the
      pages already pulled. */
  datatype Cursor<T> = Cursor(items: seq<T>, pos: nat, cache: map<int, seq<T>>)

  /** A page returned by `get_page` and the cursor it leaves behind. */
  datatype Fetched<T> = Fetched(page: seq<T>, after: Cursor<T>)

  /** A source that has not been asked for anything yet. */
  function Fresh<T>(items: seq<T>): Cursor<T> {
    Cursor(items, 0, map[])
  }

  function Min(a: int, b: int): int {
    if a <= b then a else b
  }

  /** The cursor invariant: the producer is never read past its end, page
      numbers in the cache are non-negative, and no cached page is longer
      than `perPage` when `perPage` is positive. */
  predicate WellFormed<T>(perPage: int, c: Cursor<T>) {
    && c.pos <= |c.items|
    && (forall k :: k in c.cache ==> 0 <= k)
    && (1 <= perPage ==> forall k :: k in c.cache ==> |c.cache[k]| <= perPage)
  }

  /** The items one cache miss takes from the producer. The pull loop stops
      after the item with `counter == perPage - 1` or when the producer is
      exhausted; for `perPage < 1` the counter never matches, so it drains
      the producer. */
  function Pull<T>(perPage: int, items: seq<T>, pos: nat): (d: seq<T>)
    requires pos <= |items|
    ensures pos + |d| <= |items| && d == items[pos..pos + |d|]
    ensures 1 <= perPage ==> |d| == Min(perPage, |items| - pos)
    ensures perPage < 1 ==> pos + |d| == |items|
  {
    if 1 <= perPage < |items| - pos then items[pos..pos + perPage] else items[pos..]
  }

  /** `AsyncIteratorPageSource.get_page`: a negative page is empty, a cached
      page is returned as it is, and a miss pulls the producer's next items
      (whatever the page number) and memoises them under that number. */
  function Fetch<T>(perPage: int, c: Cursor<T>, page: int): (r: Fetched<T>)
    requires c.pos <= |c.items|
    // the producer only moves forward, and what it yields is what is returned
    ensures r.after.items == c.items && c.pos <= r.after.pos <= |c.items|
    ensures r.after.pos == c.pos || r.page == c.items[c.pos..r.after.pos]
    // the cache is append-only and gains at most the requested page
    ensures forall k :: k in c.cache ==> k in r.after.cache && r.after.cache[k] == c.cache[k]
    ensures forall k :: k in r.after.cache ==> k in c.cache || k == page
    ensures 0 <= page ==> page in r.after.cache && r.after.cache[page] == r.page
    ensures WellFormed(perPage, c) ==> WellFormed(perPage, r.after)
  {
    if page < 0 then Fetched([], c)
    else if page in c.cache then Fetched(c.cache[page], c)
    else
      var d := Pull(perPage, c.items, c.pos);
      Fetched(d, c.(pos := c.pos + |d|, cache := c.cache[page := d]))
  }

  lemma NegativePageIsEmpty<T>(perPage: int, c: Cursor<T>, page: int)
    requires c.pos <= |c.items| && page < 0
    ensures Fetch(perPage, c, page) == Fetched([], c)
  {
  }

  lemma CachedPageIsReturned<T>(perPage: int, c: Cursor<T>, page: int)
    requires c.pos <= |c.items| && 0 <= page && page in c.cache
    ensures Fetch(perPage, c, page) == Fetched(c.cache[page], c)
  {
  }

  /** A miss returns the next `min(perPage, remaining)` unconsumed items,
      advances the producer by as many, and caches them under `page` only. */
  lemma MissPullsNextItems<T>(perPage: int, c: Cursor<T>, page: int)
    requires c.pos <= |c.items| && 1 <= perPage && 0 <= page && page !in c.cache
    ensures var n := Min(perPage, |c.items| - c.pos);
      && Fetch(perPage, c, page).page == c.items[c.pos..c.pos + n]
      && Fetch(perPage, c, page).after == c.(pos := c.pos + n, cache := c.cache[page := c.items[c.pos..c.pos + n]])
  {
  }

  /** Asking twice for the same page returns the same items and consumes
      nothing the second time. */
  lemma FetchIsIdempotent<T>(perPage: int, c: Cursor<T>, page: int)
    requires c.pos <= |c.items|
    ensures var r := Fetch(perPage, c, page);
      Fetch(perPage, r.after, page) == r
  {
  }

  /** On a miss the page number plays no part in which items come back. */
  lemma MissIgnoresPageNumber<T>(perPage: int, c: Cursor<T>, i: int, j: int)
    requires c.pos <= |c.items| && 0 <= i && 0 <= j && i !in c.cache && j !in c.cache
    ensures Fetch(perPage, c, i).page == Fetch(perPage, c, j).page
  {
  }

  /** The reference meaning of page `i`: items `[i*perPage, (i+1)*perPage)`
      of the collection, cut short at its end. */
  function Slice<T>(items: seq<T>, perPage: int, i: int): (s: seq<T>)
    requires 1 <= perPage && 0 <= i
    ensures |s| <= perPage
  {
    assert i * perPage <= (i + 1) * perPage == i * perPage + perPage;
    items[Min(i * perPage, |items|)..Min((i + 1) * perPage, |items|)]
  }

  lemma SliceBeforeEndIsNonEmpty<T>(items: seq<T>, perPage: int, i: int)
    requires 1 <= perPage && 0 <= i && i * perPage < |items|
    ensures Slice(items, perPage, i) != []
  {
    assert (i + 1) * perPage == i * perPage + perPage;
  }

  /** Pages `0 .. k-1` have been pulled in this order, and nothing else. */
  ghost predicate SequentialUpTo<T>(perPage: int, c: Cursor<T>, k: int)
    requires 1 <= perPage
  {
    && 0 <= k
    && c.pos == Min(k * perPage, |c.items|)
    && (forall i :: i in c.cache <==> 0 <= i < k)
    && (forall i :: 0 <= i < k ==> c.cache[i] == Slice(c.items, perPage, i))
  }

  /** From a cursor that has served pages `0 .. k-1` in order: an earlier page
      is served from the cache, page `k` is the `k`-th slice, and a later page
      gets the `k`-th slice too, filed under the wrong number. */
  lemma {:induction false} FetchAfterSequential<T>(perPage: int, c: Cursor<T>, k: int, page: int)
    requires 1 <= perPage && SequentialUpTo(perPage, c, k) && 0 <= page
    ensures page < k ==> Fetch(perPage, c, page) == Fetched(Slice(c.items, perPage, page), c)
    ensures k <= page ==> Fetch(perPage, c, page).page == Slice(c.items, perPage, k)
    ensures page == k ==> SequentialUpTo(perPage, Fetch(perPage, c, page).after, k + 1)
  {
    var n := |c.items|;
    assert (k + 1) * perPage == k * perPage + perPage;
    if k <= page {
      assert page !in c.cache;
      var d := Pull(perPage, c.items, c.pos);
      assert Fetch(perPage, c, page).page == d;
      if k * perPage >= n {
        assert c.pos == n;
      } else {
        assert c.pos == k * perPage;
      }
      assert d == Slice(c.items, perPage, k);
      if page == k {
        var a := Fetch(perPage, c, page).after;
        assert a.pos == Min((k + 1) * perPage, n);
        forall i | 0 <= i < k + 1
          ensures i in a.cache && a.cache[i] == Slice(a.items, perPage, i)
        {
          if i < k {
            assert i in c.cache;
          }
        }
      }
    }
  }

  /** The page numbers `0 .. k-1`. */
  function Range(k: nat): (r: seq<int>)
    ensures |r| == k && forall i :: 0 <= i < k ==> r[i] == i
  {
    seq(k, i => i)
  }

  /** Fetching `pages` one after another: the pages returned, in order, and
      the final cursor. */
  function Walk<T>(perPage: int, c: Cursor<T>, pages: seq<int>): (r: (seq<seq<T>>, Cursor<T>))
    requires c.pos <= |c.items|
    ensures |r.0| == |pages|
    ensures r.1.items == c.items && c.pos <= r.1.pos <= |c.items|
    decreases |pages|
  {
    if pages == [] then ([], c)
    else
      var (done, mid) := Walk(perPage, c, pages[..|pages| - 1]);
      var f := Fetch(perPage, mid, pages[|pages| - 1]);
      (done + [f.page], f.after)
  }

  /** Asking a fresh source for pages 0, 1, ..., k-1 in that order yields the
      consecutive `perPage`-sized slices of the producer's sequence. */
  lemma {:induction false} SequentialWalk<T>(items: seq<T>, perPage: int, k: nat)
    requires 1 <= perPage
    ensures var (pages, c) := Walk(perPage, Fresh(items), Range(k));
      && (forall i :: 0 <= i < k ==> pages[i] == Slice(items, perPage, i))
      && SequentialUpTo(perPage, c, k)
  {
    if k > 0 {
      SequentialWalk(items, perPage, k - 1);
      assert Range(k)[..k - 1] == Range(k - 1);
      var (pages, c) := Walk(perPage, Fresh(items), Range(k - 1));
      FetchAfterSequential(perPage, c, k - 1, k - 1);
      var f := Fetch(perPage, c, k - 1);
      var (pages', c') := Walk(perPage, Fresh(items), Range(k));
      assert pages' == pages + [f.page] && c' == f.after;
      forall i | 0 <= i < k
        ensures pages'[i] == Slice(items, perPage, i)
      {
        if i < k - 1 {
          assert pages'[i] == pages[i];
        }
      }
    }
  }

  /** The producer of the library's own example: the numbers 0 to 49. */
  function Fixture(): (s: seq<int>)
    ensures |s| == 50 && forall i :: 0 <= i < 50 ==> s[i] == i
  {
    seq(50, i => i)
  }

  /** With 10 items per page, page 0 is 0..9, asking again consumes nothing,
      and page 1 is then 10..19. */
  lemma FixtureInOrder()
    ensures var r0 := Fetch(10, Fresh(Fixture()), 0);
      var again := Fetch(10, r0.after, 0);
      var r1 := Fetch(10, again.after, 1);
      && r0.page == Fixture()[0..10] && again == r0 && r1.page == Fixture()[10..20]
  {
  }

  /** Asking a fresh source for page 2 first gets items 0..9 cached as page 2,
      not the slice 20..29 that page 2 stands for. */
  lemma FixtureOutOfOrder()
    ensures var r := Fetch(10, Fresh(Fixture()), 2);
      && r.page == Fixture()[0..10]
      && r.after.cache[2] == Fixture()[0..10]
      && r.page != Slice(Fixture(), 10, 2)
  {
    var r := Fetch(10, Fresh(Fixture()), 2);
    assert r.page[0] == 0;
    assert Slice(Fixture(), 10, 2)[0] == 20;
  }
}
