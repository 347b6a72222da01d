/** The paginated feed (src/services/waterfallService.ts): one page of the
    feed table in (sortOrder ascending, createdAt descending) order, each
    row joined to its image, plus an unscoped row count. The query and the
    count read the same snapshot. */
module WaterfallService {
  import opened Js
  import opened Schema
  import opened Ordering

  const DefaultPage := 1
  const DefaultPageSize := 20

  /** `WaterfallItemResponse`. */
  datatype FeedItem = FeedItem(
    id: string,
    imageUrl: string,
    description: Option<string>,
    articleId: string,
    createdAt: int,
    updatedAt: int,
    width: int,
    height: int)

  datatype FeedPage = FeedPage(items: seq<FeedItem>, total: int, page: int, pageSize: int, totalPages: int)

  /** The `orderBy`: sortOrder ascending, then createdAt descending. */
  function FeedKey(w: WaterfallItem): Key {
    (w.sortOrder, -w.createdAt)
  }

  /** The store's order of the whole feed table. */
  function FeedOrder(items: seq<WaterfallItem>): seq<WaterfallItem> {
    SortBy(items, FeedKey)
  }

  /** `Math.ceil(total / pageSize)` for a positive page size. */
  function CeilDiv(total: nat, pageSize: nat): (q: nat)
    requires pageSize >= 1
    ensures q * pageSize >= total
    ensures q == 0 || (q - 1) * pageSize < total
  {
    (total + pageSize - 1) / pageSize
  }

  /** The `map` over one joined row: a missing image, or a falsy url or
      dimension, turns into '' or 0. */
  function FormatItem(item: WaterfallItem, images: seq<Image>): (f: FeedItem)
    ensures f.id == item.id && f.description == item.description && f.articleId == item.articleId
    ensures f.createdAt == item.createdAt && f.updatedAt == item.updatedAt
    ensures !HasImage(images, item.imageId) ==> f.imageUrl == "" && f.width == 0 && f.height == 0
    ensures HasImage(images, item.imageId) ==>
              var img := FindImage(images, item.imageId).value;
              && f.imageUrl == (if Truthy(Some(img.url)) then img.url else "")
              && f.width == (if TruthyNum(img.width) then img.width.value else 0)
              && f.height == (if TruthyNum(img.height) then img.height.value else 0)
  {
    var image := FindImage(images, item.imageId);
    var url := if image.Some? then Some(image.value.url) else None;
    var width := if image.Some? then image.value.width else None;
    var height := if image.Some? then image.value.height else None;
    FeedItem(item.id, OrElse(url, ""), item.description, item.articleId, item.createdAt, item.updatedAt,
             OrNum(width, 0), OrNum(height, 0))
  }

  /** `skip = (page - 1) * pageSize`. */
  function Skip(page: int, pageSize: int): (skip: int)
    requires page >= 1 && pageSize >= 1
    ensures skip >= 0
    ensures skip == (page - 1) * pageSize
  {
    MulNonNegative(page - 1, pageSize);
    (page - 1) * pageSize
  }

  lemma MulNonNegative(a: int, b: int)
    requires a >= 0 && b >= 0
    ensures a * b >= 0
  {
  }

  /** `skip` and `take` on the ordered table. */
  function Window(sorted: seq<WaterfallItem>, skip: nat, take: nat): (w: seq<WaterfallItem>)
    ensures |w| == if skip >= |sorted| then 0 else if |sorted| - skip < take then |sorted| - skip else take
    ensures forall k :: 0 <= k < |w| ==> w[k] == sorted[skip + k]
  {
    if skip >= |sorted| then []
    else if skip + take <= |sorted| then sorted[skip..skip + take]
    else sorted[skip..]
  }

  function FormatAll(window: seq<WaterfallItem>, images: seq<Image>): (f: seq<FeedItem>)
    ensures |f| == |window|
    ensures forall k :: 0 <= k < |f| ==> f[k] == FormatItem(window[k], images)
  {
    seq(|window|, k requires 0 <= k < |window| => FormatItem(window[k], images))
  }

  /** `getWaterfallItems(page = 1, pageSize = 20)` for positive page and
      page size. */
  function GetWaterfallItems(items: seq<WaterfallItem>, images: seq<Image>, page: Option<int>, pageSize: Option<int>)
    : (r: FeedPage)
    requires page.None? || page.value >= 1
    requires pageSize.None? || pageSize.value >= 1
    ensures r.page == (if page.Some? then page.value else 1)
    ensures r.pageSize == (if pageSize.Some? then pageSize.value else 20)
    ensures r.total == |items|
    ensures r.totalPages == CeilDiv(|items|, r.pageSize)
    ensures r.items == PageRows(items, images, r.page, r.pageSize)
  {
    var p := if page.Some? then page.value else DefaultPage;
    var size := if pageSize.Some? then pageSize.value else DefaultPageSize;
    FeedPage(PageRows(items, images, p, size), |items|, p, size, CeilDiv(|items|, size))
  }

  /** The formatted rows of one page of the ordered feed. */
  function PageRows(items: seq<WaterfallItem>, images: seq<Image>, page: int, pageSize: int)
    : (rows: seq<FeedItem>)
    requires page >= 1 && pageSize >= 1
    ensures var skip := Skip(page, pageSize);
            && |rows| == (if skip >= |items| then 0 else if |items| - skip < pageSize then |items| - skip else pageSize)
            && forall k :: 0 <= k < |rows| ==> rows[k] == FormatItem(FeedOrder(items)[skip + k], images)
  {
    FormatAll(Window(FeedOrder(items), Skip(page, pageSize), pageSize), images)
  }

  /** Every page lists its rows in feed order. */
  lemma PageInFeedOrder(items: seq<WaterfallItem>, images: seq<Image>, page: int, pageSize: int, i: int, j: int)
    requires page >= 1 && pageSize >= 1
    requires 0 <= i < j < |GetWaterfallItems(items, images, Some(page), Some(pageSize)).items|
    ensures var skip := Skip(page, pageSize);
            KeyLe(FeedKey(FeedOrder(items)[skip + i]), FeedKey(FeedOrder(items)[skip + j]))
  {
    SortBySorted(items, FeedKey);
  }

  /** Position `n` of the ordered feed has exactly one (page, index) pair. */
  lemma {:induction false} RowPositionUnique(n: int, pageSize: int, q: int, k: int)
    requires pageSize >= 1 && 0 <= k < pageSize && n == q * pageSize + k
    ensures q == n / pageSize && k == n % pageSize
  {
    var q0 := n / pageSize;
    var k0 := n % pageSize;
    assert n == q0 * pageSize + k0;
    assert (q - q0) * pageSize == k0 - k;
    if q - q0 >= 1 {
      MulAtLeast(q - q0, pageSize);
    } else if q - q0 <= -1 {
      MulAtLeast(q0 - q, pageSize);
    }
  }

  lemma MulAtLeast(a: int, b: int)
    requires a >= 1 && b >= 0
    ensures a * b >= b
  {
    MulNonNegative(a - 1, b);
  }

  /** Each row of the ordered feed is on a page: row `n` is entry
      `n % pageSize` of page `n / pageSize + 1`, and that page is within
      `totalPages`. */
  lemma RowOnItsPage(items: seq<WaterfallItem>, images: seq<Image>, pageSize: int, n: int)
    requires pageSize >= 1 && 0 <= n < |items|
    ensures var r := GetWaterfallItems(items, images, Some(n / pageSize + 1), Some(pageSize));
            && n % pageSize < |r.items|
            && r.items[n % pageSize] == FormatItem(FeedOrder(items)[n], images)
            && n / pageSize + 1 <= r.totalPages
  {
    PagePosition(n, pageSize, |items|);
  }

  /** The arithmetic of `RowOnItsPage`. */
  lemma PagePosition(n: int, pageSize: int, total: int)
    requires pageSize >= 1 && 0 <= n < total
    ensures Skip(n / pageSize + 1, pageSize) + n % pageSize == n
    ensures n / pageSize + 1 <= CeilDiv(total, pageSize)
  {
    var q := n / pageSize;
    var k := n % pageSize;
    assert n == q * pageSize + k;
    var t := CeilDiv(total, pageSize);
    if q >= t {
      MulMonotone(t, q, pageSize);
    }
  }

  lemma MulMonotone(a: int, b: int, c: int)
    requires 0 <= a <= b && c >= 0
    ensures a * c <= b * c
  {
    MulNonNegative(b - a, c);
  }
  /** A feed row whose image is gone is still listed, with empty URL and
      zero dimensions. */
  lemma MissingImageDefaults(item: WaterfallItem, images: seq<Image>)
    requires !HasImage(images, item.imageId)
    ensures FormatItem(item, images).imageUrl == ""
    ensures FormatItem(item, images).width == 0 && FormatItem(item, images).height == 0
  {
  }

  /** The total does not depend on the page asked for. */
  lemma TotalIndependentOfPage(items: seq<WaterfallItem>, images: seq<Image>, p1: int, p2: int, size: int)
    requires p1 >= 1 && p2 >= 1 && size >= 1
    ensures GetWaterfallItems(items, images, Some(p1), Some(size)).total
            == GetWaterfallItems(items, images, Some(p2), Some(size)).total
    ensures GetWaterfallItems(items, images, Some(p1), Some(size)).totalPages
            == GetWaterfallItems(items, images, Some(p2), Some(size)).totalPages
  {
  }
}
