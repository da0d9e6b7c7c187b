/**
 * `VirtualizingCollection<T>` (logviewer.core/VirtualizingCollection.cs): a
 * read-only list whose items live in pages fetched on demand from an items
 * provider. Each cached page has a touch time; pages other than page 0 that
 * were not touched within the cache timeout are dropped.
 *
 * The clock (`DateTime.Now`) is a parameter, in milliseconds; the indexer
 * reads it twice, once to stamp the requested page and once to clean up. The
 * asynchronous fetch is split in two: requesting a page records the fetch in
 * `fetches`, and the provider's answer arrives later through `PopulatePage`.
 */
module Virtualizing {
  import opened Common

  /** The default page size and cache timeout of the shorter constructors. */
  const DefaultPageSize: int := 100
  const DefaultPageCacheTimeoutMilliseconds: int := 10000

  /** A page goes stale: not page 0, touched, and last touched more than `timeout` ms before `now`. */
  predicate Expired(touch: map<int, int>, key: int, now: int, timeout: int) {
    key != 0 && key in touch && now - touch[key] > timeout
  }

  /** What a clean-up at `now` keeps of a map keyed by page. */
  function Unexpired<V>(m: map<int, V>, touch: map<int, int>, now: int, timeout: int): map<int, V> {
    map k | k in m && !Expired(touch, k, now, timeout) :: m[k]
  }

  /** The page slots after a request: a new page gets an empty (not yet loaded) slot. */
  function Requested<T>(pages: map<int, Option<seq<T>>>, page: int): map<int, Option<seq<T>>> {
    if page in pages then pages else pages[page := None]
  }

  /** What the indexer reads: the item at the offset of a loaded page, else the default. */
  function Lookup<T>(pages: map<int, Option<seq<T>>>, page: int, offset: int, defaultValue: T): T
    requires offset >= 0
  {
    if page !in pages || pages[page].None? then defaultValue
    else if offset >= |pages[page].value| then defaultValue
    else pages[page].value[offset]
  }

  /** `FetchPage(p)`: the provider is asked for `PageSize` items from `p * PageSize`. */
  function FetchRange(pageIndex: int, pageSize: int): (int, int) {
    (pageIndex * pageSize, pageSize)
  }

  /**
   * The index the indexer is asked for lies in the range its page fetches,
   * at the offset the indexer reads; for an index in the 32-bit range the
   * fetch offset stays in range too, so its multiplication cannot wrap.
   */
  lemma PageHoldsIndex(index: int, pageSize: int)
    requires index >= 0 && pageSize > 0
    ensures var (offset, limit) := FetchRange(Quot(index, pageSize), pageSize);
      0 <= offset <= index < offset + limit && Rem(index, pageSize) == index - offset
  {
    QuotRem(index, pageSize);
    QuotNonNegative(index, pageSize);
  }

  lemma QuotNonNegative(a: int, b: int)
    requires a >= 0 && b > 0
    ensures Quot(a, b) >= 0 && Quot(a, b) * b >= 0
  {
  }

  /**
   * Once a page is populated with the items the provider returned, the
   * indexer reads the item at its offset, or the default past the items'
   * end.
   */
  lemma LookupAfterPopulate<T>(pages: map<int, Option<seq<T>>>, page: int, items: seq<T>, offset: int, defaultValue: T)
    requires offset >= 0
    ensures Lookup(pages[page := Some(items)], page, offset, defaultValue)
         == if offset < |items| then items[offset] else defaultValue
  {
  }

  /**
   * A clean-up at `now` never drops page 0; it keeps a page stamped at
   * `stamp` exactly when page 0 or no more than the timeout has passed since
   * the stamp; and it keeps the keys of two maps with the same keys equal.
   */
  lemma CleanUpKeeps<V, W>(a: map<int, V>, b: map<int, W>, touch: map<int, int>, page: int, stamp: int, now: int, timeout: int)
    requires a.Keys == b.Keys
    ensures Unexpired(a, touch, now, timeout).Keys == Unexpired(b, touch, now, timeout).Keys
    ensures 0 in a ==> 0 in Unexpired(a, touch, now, timeout)
    ensures page in a && now - stamp <= timeout ==> page in Unexpired(a, touch[page := stamp], now, timeout)
    ensures page != 0 && now - stamp > timeout ==> page !in Unexpired(a, touch[page := stamp], now, timeout)
  {
    assert forall k :: k in Unexpired(a, touch, now, timeout) <==> k in a && !Expired(touch, k, now, timeout);
    assert forall k :: k in Unexpired(b, touch, now, timeout) <==> k in b && !Expired(touch, k, now, timeout);
  }

  /** One of the page numbers of a non-empty set, in no particular order. */
  method PickPage(keys: set<int>) returns (key: int)
    requires keys != {}
    ensures key in keys
  {
    if forall k :: k !in keys {
      assert false;
    }
    key :| key in keys;
  }

  class VirtualizingCollection<T> {
    const PageSize: int
    const PageCacheTimeoutMilliseconds: int
    /** `default(T)`, what the indexer answers for an item not loaded. */
    const defaultValue: T
    /** The visible range of indices; only these trigger page requests. */
    var FirstVisible: int
    var LastVisible: int
    var count: int
    /** The page slots; `None` is a page requested but not yet loaded. */
    var pages: map<int, Option<seq<T>>>
    var pageTouchTimes: map<int, int>
    /** The pages whose fetch was started (one `LoadPage` each), in order. */
    var fetches: seq<int>

    /** Every page slot has a touch time and the other way round. */
    ghost predicate Valid()
      reads this
    {
      pages.Keys == pageTouchTimes.Keys
    }

    /** The three-argument constructor. */
    constructor(pageSize: int, pageCacheTimeoutMilliseconds: int, defaultValue: T)
      ensures Valid() && PageSize == pageSize && PageCacheTimeoutMilliseconds == pageCacheTimeoutMilliseconds
      ensures this.defaultValue == defaultValue && count == 0 && FirstVisible == 0 && LastVisible == 0
      ensures pages == map[] && pageTouchTimes == map[] && fetches == []
    {
      PageSize := pageSize;
      PageCacheTimeoutMilliseconds := pageCacheTimeoutMilliseconds;
      this.defaultValue := defaultValue;
      FirstVisible, LastVisible, count := 0, 0, 0;
      pages, pageTouchTimes, fetches := map[], map[], [];
    }

    /** The two-argument constructor: the default cache timeout. */
    constructor WithPageSize(pageSize: int, defaultValue: T)
      ensures Valid() && PageSize == pageSize && PageCacheTimeoutMilliseconds == DefaultPageCacheTimeoutMilliseconds
      ensures this.defaultValue == defaultValue && count == 0 && FirstVisible == 0 && LastVisible == 0
      ensures pages == map[] && pageTouchTimes == map[] && fetches == []
    {
      PageSize := pageSize;
      PageCacheTimeoutMilliseconds := DefaultPageCacheTimeoutMilliseconds;
      this.defaultValue := defaultValue;
      FirstVisible, LastVisible, count := 0, 0, 0;
      pages, pageTouchTimes, fetches := map[], map[], [];
    }

    /** The one-argument constructor: default page size and cache timeout. */
    constructor Default(defaultValue: T)
      ensures Valid() && PageSize == DefaultPageSize && PageCacheTimeoutMilliseconds == DefaultPageCacheTimeoutMilliseconds
      ensures this.defaultValue == defaultValue && count == 0 && FirstVisible == 0 && LastVisible == 0
      ensures pages == map[] && pageTouchTimes == map[] && fetches == []
    {
      PageSize := DefaultPageSize;
      PageCacheTimeoutMilliseconds := DefaultPageCacheTimeoutMilliseconds;
      this.defaultValue := defaultValue;
      FirstVisible, LastVisible, count := 0, 0, 0;
      pages, pageTouchTimes, fetches := map[], map[], [];
    }

    /**
     * The indexer's getter: an index in the visible range requests its page,
     * stamping it at `requestTime`, and cleans up stale pages as of
     * `cleanUpTime`; then the item is read from the cache, the default when
     * its page is missing, not loaded, or too short. The requested page
     * survives the clean-up exactly when it is page 0 or no more than the
     * timeout passed between the two clock readings.
     */
    method Get(index: int, requestTime: int, cleanUpTime: int) returns (item: T)
      requires Valid() && PageSize != 0 && index >= 0
      modifies this
      ensures Valid() && count == old(count) && FirstVisible == old(FirstVisible) && LastVisible == old(LastVisible)
      ensures FirstVisible <= index <= LastVisible ==>
                pages == Unexpired(Requested(old(pages), Quot(index, PageSize)),
                                   old(pageTouchTimes)[Quot(index, PageSize) := requestTime], cleanUpTime, PageCacheTimeoutMilliseconds)
                && pageTouchTimes == Unexpired(old(pageTouchTimes)[Quot(index, PageSize) := requestTime],
                                               old(pageTouchTimes)[Quot(index, PageSize) := requestTime], cleanUpTime,
                                               PageCacheTimeoutMilliseconds)
                && fetches == old(fetches) + (if Quot(index, PageSize) in old(pages) then [] else [Quot(index, PageSize)])
      ensures FirstVisible <= index <= LastVisible && cleanUpTime - requestTime <= PageCacheTimeoutMilliseconds ==>
                Quot(index, PageSize) in pages
      ensures FirstVisible <= index <= LastVisible && Quot(index, PageSize) != 0
              && cleanUpTime - requestTime > PageCacheTimeoutMilliseconds ==>
                Quot(index, PageSize) !in pages && item == defaultValue
      ensures !(FirstVisible <= index <= LastVisible) ==>
                pages == old(pages) && pageTouchTimes == old(pageTouchTimes) && fetches == old(fetches)
      ensures item == Lookup(pages, Quot(index, PageSize), Rem(index, PageSize), defaultValue)
    {
      var pageIndex := Quot(index, PageSize);
      var pageOffset := Rem(index, PageSize);
      QuotRem(index, PageSize);
      if index >= FirstVisible && index <= LastVisible {
        RequestPage(pageIndex, requestTime);
        ghost var requested := pages;
        ghost var touched := pageTouchTimes;
        CleanUpPages(cleanUpTime);
        CleanUpKeeps(requested, touched, old(pageTouchTimes), pageIndex, requestTime, cleanUpTime, PageCacheTimeoutMilliseconds);
      }
      if pageIndex !in pages || pages[pageIndex].None? {
        return defaultValue;
      }
      var result := pages[pageIndex].value;
      item := if pageOffset >= |result| then defaultValue else result[pageOffset];
    }

    /**
     * `CleanUpPages`: drop, from both maps, every page but page 0 whose
     * touch time is more than the timeout before `now`.
     */
    method CleanUpPages(now: int)
      requires Valid()
      modifies this
      ensures Valid() && count == old(count) && FirstVisible == old(FirstVisible) && LastVisible == old(LastVisible)
      ensures pages == Unexpired(old(pages), old(pageTouchTimes), now, PageCacheTimeoutMilliseconds)
      ensures pageTouchTimes == Unexpired(old(pageTouchTimes), old(pageTouchTimes), now, PageCacheTimeoutMilliseconds)
      ensures fetches == old(fetches)
    {
      var timeout := PageCacheTimeoutMilliseconds;
      var keys := pageTouchTimes.Keys;
      var kept, times := pages, pageTouchTimes;
      while keys != {}
        modifies {}
        invariant keys <= old(pageTouchTimes).Keys
        invariant kept == map k | k in old(pages) && (k in keys || !Expired(old(pageTouchTimes), k, now, timeout)) :: old(pages)[k]
        invariant times == map k | k in old(pageTouchTimes) && (k in keys || !Expired(old(pageTouchTimes), k, now, timeout)) :: old(pageTouchTimes)[k]
        decreases |keys|
      {
        var key := PickPage(keys);
        keys := keys - {key};
        if key != 0 && key in times && now - times[key] > timeout {
          kept := kept - {key};
          times := times - {key};
        }
      }
      pages, pageTouchTimes := kept, times;
    }

    /** `PopulatePage`: the provider's answer fills the page's slot, if the slot is still there. */
    method PopulatePage(pageIndex: int, page: Option<seq<T>>)
      requires Valid()
      modifies this
      ensures Valid() && pageTouchTimes == old(pageTouchTimes) && fetches == old(fetches) && count == old(count)
      ensures FirstVisible == old(FirstVisible) && LastVisible == old(LastVisible)
      ensures pages == if pageIndex in old(pages) then old(pages)[pageIndex := page] else old(pages)
    {
      if pageIndex in pages {
        pages := pages[pageIndex := page];
      }
    }

    /**
     * `RequestPage`: a new page gets an empty slot, a touch time and one
     * fetch; a known page only has its touch time refreshed.
     */
    method RequestPage(pageIndex: int, now: int)
      requires Valid()
      modifies this
      ensures Valid() && count == old(count) && FirstVisible == old(FirstVisible) && LastVisible == old(LastVisible)
      ensures pages == Requested(old(pages), pageIndex)
      ensures pageTouchTimes == old(pageTouchTimes)[pageIndex := now]
      ensures fetches == old(fetches) + (if pageIndex in old(pages) then [] else [pageIndex])
    {
      if pageIndex !in pages {
        pages := pages[pageIndex := None];
        pageTouchTimes := pageTouchTimes[pageIndex := now];
        fetches := fetches + [pageIndex];
      } else {
        pageTouchTimes := pageTouchTimes[pageIndex := now];
      }
    }

    /** `Clear`: no items and no cached page. */
    method Clear()
      modifies this
      ensures Valid() && count == 0 && pages == map[] && pageTouchTimes == map[] && fetches == old(fetches)
      ensures FirstVisible == old(FirstVisible) && LastVisible == old(LastVisible)
    {
      count := 0;
      pages := map[];
      pageTouchTimes := map[];
    }

    /** `LoadCount`: set the number of items. */
    method LoadCount(itemsCount: int)
      modifies this`count
      ensures count == itemsCount
    {
      count := itemsCount;
    }

    /** `Contains`: no item is ever reported present, whatever the cache holds. */
    function Contains(item: T): (r: bool)
      ensures !r
    {
      false
    }

    /** `IndexOf`: no item is ever found. */
    function IndexOf(item: T): (r: int)
      ensures r == -1
    {
      -1
    }
  }
}
