/** The image reconciler (src/utils/dataConsistency.ts): compares the image
    table with the COS object listing, and deletes the image rows whose
    object is missing. The COS client and `new URL` are parameters:
    `parse` yields a URL's pathname (`None` when the constructor throws),
    `head` says whether `headObject` finds a key, and `getBucket` returns
    one page of the listing under the `uploads/` prefix for a marker
    (`None` when the call throws). The bucket and region come from
    configuration. */
module DataConsistency {
  import opened Js
  import opened ErrorHandler
  import opened Schema
  import opened ImageService

  const CheckFailedMessage := "数据一致性检查失败"
  const FixFailedMessage := "数据一致性修复失败"
  const RecentLimit := 100

  type UrlParser = string -> Option<string>
  type HeadProbe = string -> bool

  /** One `getBucket` answer: the `Contents[].Key` values and `NextMarker`. */
  datatype BucketPage = BucketPage(contents: Option<seq<Option<string>>>, nextMarker: Option<string>)
  type Lister = Option<string> -> Option<BucketPage>

  datatype Report = Report(missingInOSS: seq<string>, missingInDatabase: seq<string>, totalChecked: int)
  datatype FixReport = FixReport(deletedFromDatabase: int, importedToDatabase: int)

  // ----- keys and URLs -----

  /** `extractFileKeyFromUrl`: the pathname without its first character, or
      `None` when the URL does not parse. */
  function ExtractFileKeyFromUrl(parse: UrlParser, url: string): (k: Option<string>)
    ensures parse(url).None? <==> k.None?
    ensures parse(url).Some? && parse(url).value != "" ==> k == Some(parse(url).value[1..])
    ensures parse(url).Some? && parse(url).value == "" ==> k == Some("")
  {
    match parse(url)
    case None => None
    case Some(pathname) => Some(if pathname == "" then "" else pathname[1..])
  }

  /** The public URL the reconciler rebuilds from a listed key. */
  function ObjectUrl(bucket: string, region: string, key: string): string {
    "https://" + bucket + ".cos." + region + ".myqcloud.com/" + key
  }

  /** An image counts as missing when its URL yields no key (absent or
      empty) or when the key probe fails. */
  predicate ObjectMissing(parse: UrlParser, head: HeadProbe, img: Image) {
    var key := ExtractFileKeyFromUrl(parse, img.url);
    !Truthy(key) || !head(key.value)
  }

  /** The ids pushed onto `missingInOSS`, in table order. */
  function MissingInOss(parse: UrlParser, head: HeadProbe, images: seq<Image>): (r: seq<string>)
    ensures |r| <= |images|
    decreases |images|
  {
    if images == [] then []
    else
      var last := images[|images| - 1];
      MissingInOss(parse, head, images[..|images| - 1]) + (if ObjectMissing(parse, head, last) then [last.id] else [])
  }

  /** `ossFiles.slice(-100)`. */
  function RecentKeys(keys: seq<string>): (r: seq<string>)
    ensures |r| == if |keys| <= 100 then |keys| else 100
    ensures r == keys[|keys| - |r|..]
  {
    if |keys| <= RecentLimit then keys else keys[|keys| - RecentLimit..]
  }

  predicate HasImageUrl(images: seq<Image>, url: string) {
    exists i :: 0 <= i < |images| && images[i].url == url
  }

  /** The keys pushed onto `missingInDatabase`, in listing order. */
  function MissingInDatabase(images: seq<Image>, bucket: string, region: string, keys: seq<string>): (r: seq<string>)
    ensures |r| <= |keys|
    decreases |keys|
  {
    if keys == [] then []
    else
      var last := keys[|keys| - 1];
      MissingInDatabase(images, bucket, region, keys[..|keys| - 1])
        + (if HasImageUrl(images, ObjectUrl(bucket, region, last)) then [] else [last])
  }

  // ----- listing -----

  /** The truthy `Key`s of one page, in order. */
  function TruthyKeys(contents: seq<Option<string>>): (r: seq<string>)
    ensures forall k :: k in r ==> k != ""
    decreases |contents|
  {
    if contents == [] then []
    else
      var last := contents[|contents| - 1];
      TruthyKeys(contents[..|contents| - 1]) + (if Truthy(last) then [last.value] else [])
  }

  function PageKeys(p: BucketPage): seq<string> {
    if p.contents.Some? then TruthyKeys(p.contents.value) else []
  }

  datatype Listing = Listed(keys: seq<string>) | ListFailed | Unfinished

  /** The do-while over `NextMarker`, starting from `marker`, looking at no
      more than `pages` pages: the keys of every page up to the first one
      without a truthy marker, a failure if some call throws first, or
      `Unfinished` if the pages run out. */
  function ListFrom(getBucket: Lister, marker: Option<string>, pages: nat): (l: Listing)
    ensures l.Listed? ==> forall k :: k in l.keys ==> k != ""
    decreases pages
  {
    if pages == 0 then Unfinished
    else match getBucket(marker)
      case None => ListFailed
      case Some(p) =>
        if !Truthy(p.nextMarker) then Listed(PageKeys(p))
        else match ListFrom(getBucket, p.nextMarker, pages - 1)
          case Listed(rest) => Listed(PageKeys(p) + rest)
          case other => other
  }

  function Prepend(keys: seq<string>, l: Listing): Listing {
    if l.Listed? then Listed(keys + l.keys) else l
  }

  /** A listing that finishes within some number of pages gives the same
      answer with any larger allowance. */
  lemma {:induction false} ListFromMoreFuel(getBucket: Lister, marker: Option<string>, pages: nat, more: nat)
    requires ListFrom(getBucket, marker, pages) != Unfinished
    requires pages <= more
    ensures ListFrom(getBucket, marker, more) == ListFrom(getBucket, marker, pages)
    decreases pages
  {
    match getBucket(marker)
    case None =>
    case Some(p) =>
      if Truthy(p.nextMarker) {
        ListFromMoreFuel(getBucket, p.nextMarker, pages - 1, more - 1);
      }
  }

  /** One step of the do-while: the answer from `marker` is this page's
      keys followed by the answer from the next marker, if there is one. */
  lemma ListFromStep(getBucket: Lister, marker: Option<string>, pages: nat, page: BucketPage)
    requires ListFrom(getBucket, marker, pages) != Unfinished
    requires getBucket(marker) == Some(page)
    ensures pages > 0
    ensures !Truthy(page.nextMarker) ==> ListFrom(getBucket, marker, pages) == Listed(PageKeys(page))
    ensures Truthy(page.nextMarker) ==>
              && ListFrom(getBucket, page.nextMarker, pages - 1) != Unfinished
              && ListFrom(getBucket, marker, pages) == Prepend(PageKeys(page), ListFrom(getBucket, page.nextMarker, pages - 1))
  {
  }

  lemma PrependPrepend(a: seq<string>, b: seq<string>, l: Listing)
    ensures Prepend(a, Prepend(b, l)) == Prepend(a + b, l)
  {
    if l.Listed? {
      assert a + (b + l.keys) == (a + b) + l.keys;
    }
  }

  lemma PrependNothing(l: Listing)
    ensures Prepend([], l) == l
  {
    if l.Listed? {
      assert [] + l.keys == l.keys;
    }
  }

  /** The `forEach` over one page: push every truthy `Key`. */
  method PushKeys(ossFiles: seq<string>, contents: seq<Option<string>>) returns (r: seq<string>)
    ensures r == ossFiles + TruthyKeys(contents)
  {
    r := ossFiles;
    for i := 0 to |contents|
      invariant r == ossFiles + TruthyKeys(contents[..i])
    {
      if Truthy(contents[i]) {
        r := r + [contents[i].value];
      }
      assert contents[..i + 1][..i] == contents[..i];
    }
    assert contents[..|contents|] == contents;
  }

  /** The listing loop: pages are fetched until the marker is empty; any
      throw aborts. `pages` bounds the number of pages (the loop measure). */
  method ListAllKeys(getBucket: Lister, ghost pages: nat) returns (r: Option<seq<string>>)
    requires ListFrom(getBucket, None, pages) != Unfinished
    ensures r.None? <==> ListFrom(getBucket, None, pages).ListFailed?
    ensures r.Some? ==> r.value == ListFrom(getBucket, None, pages).keys
  {
    var ossFiles: seq<string> := [];
    var nextMarker: Option<string> := None;
    ghost var fuel := pages;
    var more := true;
    PrependNothing(ListFrom(getBucket, None, pages));
    while more
      invariant more ==> ListFrom(getBucket, nextMarker, fuel) != Unfinished
      invariant more ==> Prepend(ossFiles, ListFrom(getBucket, nextMarker, fuel)) == ListFrom(getBucket, None, pages)
      invariant !more ==> ListFrom(getBucket, None, pages) == Listed(ossFiles)
      decreases fuel, if more then 1 else 0
    {
      var result := getBucket(nextMarker);
      if result.None? {
        return None;
      }
      var page := result.value;
      ListFromStep(getBucket, nextMarker, fuel, page);
      var before := ossFiles;
      if page.contents.Some? {
        ossFiles := PushKeys(ossFiles, page.contents.value);
      }
      assert ossFiles == before + PageKeys(page);
      if !Truthy(page.nextMarker) {
        more := false;
      } else {
        PrependPrepend(before, PageKeys(page), ListFrom(getBucket, page.nextMarker, fuel - 1));
        nextMarker := page.nextMarker;
        fuel := fuel - 1;
      }
    }
    return Some(ossFiles);
  }

  // ----- check -----

  /** `checkImageConsistency` on a snapshot of the image table. A listing
      failure is the only error; a failed probe only marks the image. */
  method CheckImageConsistency(images: seq<Image>, parse: UrlParser, head: HeadProbe, getBucket: Lister,
                               bucket: string, region: string, ghost pages: nat)
    returns (r: Result<Report>)
    requires ListFrom(getBucket, None, pages) != Unfinished
    ensures r.Err? <==> ListFrom(getBucket, None, pages).ListFailed?
    ensures r.Err? ==> r.error == PlainError("数据一致性检查失败")
    ensures r.Ok? ==>
              var recent := RecentKeys(ListFrom(getBucket, None, pages).keys);
              r.value == Report(MissingInOss(parse, head, images),
                                MissingInDatabase(images, bucket, region, recent),
                                |images| + |recent|)
  {
    var missingInOSS: seq<string> := [];
    var missingInDatabase: seq<string> := [];
    var totalChecked := 0;
    var listed := ListAllKeys(getBucket, pages);
    if listed.None? {
      return Err(PlainError(CheckFailedMessage));
    }
    var ossFiles := listed.value;
    for i := 0 to |images|
      invariant missingInOSS == MissingInOss(parse, head, images[..i])
      invariant totalChecked == i
    {
      assert images[..i + 1][..i] == images[..i];
      totalChecked := totalChecked + 1;
      var fileKey := ExtractFileKeyFromUrl(parse, images[i].url);
      if !Truthy(fileKey) {
        missingInOSS := missingInOSS + [images[i].id];
        continue;
      }
      if !head(fileKey.value) {
        missingInOSS := missingInOSS + [images[i].id];
      }
    }
    assert images[..|images|] == images;
    var recentOssFiles := RecentKeys(ossFiles);
    for j := 0 to |recentOssFiles|
      invariant missingInDatabase == MissingInDatabase(images, bucket, region, recentOssFiles[..j])
      invariant totalChecked == |images| + j
    {
      assert recentOssFiles[..j + 1][..j] == recentOssFiles[..j];
      var fileKey := recentOssFiles[j];
      totalChecked := totalChecked + 1;
      var url := ObjectUrl(bucket, region, fileKey);
      if !HasImageUrl(images, url) {
        missingInDatabase := missingInDatabase + [fileKey];
      }
    }
    assert recentOssFiles[..|recentOssFiles|] == recentOssFiles;
    return Ok(Report(missingInOSS, missingInDatabase, totalChecked));
  }

  /** Exactly the images whose object is missing are reported, each by id. */
  lemma {:induction false} MissingInOssMembers(parse: UrlParser, head: HeadProbe, images: seq<Image>)
    ensures forall i :: 0 <= i < |images| && ObjectMissing(parse, head, images[i]) ==>
              images[i].id in MissingInOss(parse, head, images)
    ensures forall id :: id in MissingInOss(parse, head, images) ==>
              exists i :: 0 <= i < |images| && images[i].id == id && ObjectMissing(parse, head, images[i])
    decreases |images|
  {
    if images != [] {
      var init := images[..|images| - 1];
      MissingInOssMembers(parse, head, init);
      forall i | 0 <= i < |images| - 1 ensures images[i] == init[i] { }
      forall id | id in MissingInOss(parse, head, images)
        ensures exists i :: 0 <= i < |images| && images[i].id == id && ObjectMissing(parse, head, images[i])
      {
        if id in MissingInOss(parse, head, init) {
          var i :| 0 <= i < |init| && init[i].id == id && ObjectMissing(parse, head, init[i]);
          assert images[i] == init[i];
        }
      }
    }
  }

  /** A listed key is reported exactly when it is among the checked keys and
      no image has its rebuilt URL. */
  lemma {:induction false} MissingInDatabaseIff(images: seq<Image>, bucket: string, region: string,
                                                keys: seq<string>, k: string)
    ensures k in MissingInDatabase(images, bucket, region, keys) <==>
              k in keys && !HasImageUrl(images, ObjectUrl(bucket, region, k))
    decreases |keys|
  {
    if keys != [] {
      var init := keys[..|keys| - 1];
      MissingInDatabaseIff(images, bucket, region, init, k);
      assert keys == init + [keys[|keys| - 1]];
    }
  }

  /** Only the last 100 listed keys are looked up: a key listed earlier and
      never again is not reported, whatever the table holds. */
  lemma OldKeysIgnored(images: seq<Image>, bucket: string, region: string, keys: seq<string>, k: string)
    requires |keys| > 100
    requires k !in keys[|keys| - 100..]
    ensures k !in MissingInDatabase(images, bucket, region, RecentKeys(keys))
  {
    MissingInDatabaseIff(images, bucket, region, RecentKeys(keys), k);
  }

  /** With unique image ids the reported ids are distinct. */
  lemma {:induction false} MissingInOssDistinct(parse: UrlParser, head: HeadProbe, images: seq<Image>)
    requires UniqueImageIds(images)
    ensures Distinct(MissingInOss(parse, head, images))
    decreases |images|
  {
    if images != [] {
      var init := images[..|images| - 1];
      var last := images[|images| - 1];
      assert UniqueImageIds(init) by {
        forall i, j | 0 <= i < j < |init| ensures init[i].id != init[j].id {
          assert init[i] == images[i] && init[j] == images[j];
        }
      }
      MissingInOssDistinct(parse, head, init);
      MissingInOssMembers(parse, head, init);
      var m0 := MissingInOss(parse, head, init);
      var m := MissingInOss(parse, head, images);
      if ObjectMissing(parse, head, last) {
        assert m == m0 + [last.id];
        assert last.id !in m0;
        forall i, j | 0 <= i < j < |m| ensures m[i] != m[j] {
          assert m[i] == m0[i];
          if j < |m0| {
            assert m[j] == m0[j];
          } else {
            assert m0[i] in m0;
          }
        }
      } else {
        assert m == m0 + [];
        assert m == m0;
      }
    }
  }

  // ----- fix -----

  /** The image table after deleting every id of `ids` in turn. */
  function WithoutImages(images: seq<Image>, ids: seq<string>): (r: seq<Image>)
    ensures forall x :: x in r <==> x in images && x.id !in ids
    decreases |ids|
  {
    if ids == [] then images
    else WithoutImage(WithoutImages(images, ids[..|ids| - 1]), ids[|ids| - 1])
  }

  /** The feed table after deleting the rows of every image of `ids`. */
  function WithoutItemsOfAll(items: seq<WaterfallItem>, ids: seq<string>): (r: seq<WaterfallItem>)
    ensures forall x :: x in r <==> x in items && x.imageId !in ids
    decreases |ids|
  {
    if ids == [] then items
    else WithoutItemsOf(WithoutItemsOfAll(items, ids[..|ids| - 1]), ids[|ids| - 1])
  }

  /** One turn of the fix loop: deleting the next reported id extends the
      folded deletes by one, keeps the keys unique, and keeps every later
      reported image in the table. */
  lemma FixStep(images0: seq<Image>, items0: seq<WaterfallItem>, missing: seq<string>, j: nat,
                images: seq<Image>, items: seq<WaterfallItem>)
    requires j < |missing| && Distinct(missing)
    requires images == WithoutImages(images0, missing[..j])
    requires items == WithoutItemsOfAll(items0, missing[..j])
    requires UniqueImageIds(images) && UniqueItemIds(items)
    requires forall k :: j <= k < |missing| ==> HasImage(images, missing[k])
    ensures WithoutImage(images, missing[j]) == WithoutImages(images0, missing[..j + 1])
    ensures WithoutItemsOf(items, missing[j]) == WithoutItemsOfAll(items0, missing[..j + 1])
    ensures UniqueImageIds(WithoutImage(images, missing[j])) && UniqueItemIds(WithoutItemsOf(items, missing[j]))
    ensures forall k :: j + 1 <= k < |missing| ==> HasImage(WithoutImage(images, missing[j]), missing[k])
  {
    assert missing[..j + 1][..j] == missing[..j];
    CascadeKeepsValid(images, items, missing[j]);
    forall k | j + 1 <= k < |missing| ensures HasImage(WithoutImage(images, missing[j]), missing[k]) {
      StillPresent(images, missing[k], missing[j]);
    }
  }

  /** How many ids of `ids` the fix loop gets through: the position of the
      first image that some media row still uses, or all of them. */
  function FirstInUse(media: seq<ArticleMedia>, ids: seq<string>): (n: nat)
    ensures n <= |ids|
    ensures forall k :: 0 <= k < n ==> !ImageInUse(media, ids[k])
    ensures n < |ids| ==> ImageInUse(media, ids[n])
    decreases |ids|
  {
    if ids == [] then 0
    else if ImageInUse(media, ids[0]) then 0
    else
      var rest := FirstInUse(media, ids[1..]);
      assert forall k :: 1 <= k < 1 + rest ==> ids[k] == ids[1..][k - 1];
      1 + rest
  }

  /** The loop stops at `j` exactly when the ids before it are unused and
      the one at `j` (if any) is used. */
  lemma FirstInUseAt(media: seq<ArticleMedia>, ids: seq<string>, j: nat)
    requires j <= |ids|
    requires forall k :: 0 <= k < j ==> !ImageInUse(media, ids[k])
    requires j < |ids| ==> ImageInUse(media, ids[j])
    ensures FirstInUse(media, ids) == j
  {
  }

  /** The transaction of one fix turn: the image's feed rows, then the
      image row. `image.delete` throws for an absent id, so the turn needs
      the row to be there (the loop below shows it always is); it throws as
      well for an image that article media still uses, and then the whole
      turn rolls back. */
  method DeleteImageRows(db: Database, imageId: string) returns (deleted: bool)
    requires db.Valid() && HasImage(db.images, imageId)
    modifies db
    ensures db.Valid()
    ensures deleted <==> !ImageInUse(old(db.media), imageId)
    ensures !deleted ==> unchanged(db)
    ensures deleted ==>
              && db.items == WithoutItemsOf(old(db.items), imageId)
              && db.images == WithoutImage(old(db.images), imageId)
              && db.articles == old(db.articles) && db.media == old(db.media) && db.users == old(db.users)
  {
    if ImageInUse(db.media, imageId) {
      return false;
    }
    CascadeKeepsValid(db.images, db.items, imageId);
    DeleteKeepsMediaImages(db.images, db.media, imageId);
    CascadeKeepsItemImages(db.images, db.items, imageId);
    db.items := WithoutItemsOf(db.items, imageId);
    db.images := WithoutImage(db.images, imageId);
    return true;
  }

  /** `fixImageConsistency`: one delete transaction (feed rows, then the
      image) per reported id, in report order. Every delete finds its image,
      since the reported ids are distinct ids of existing rows. The first
      image that article media still uses stops the loop with the fix
      error; the turns before it stay committed. */
  method FixImageConsistency(db: Database, parse: UrlParser, head: HeadProbe, getBucket: Lister,
                             bucket: string, region: string, ghost pages: nat)
    returns (r: Result<FixReport>)
    requires db.Valid()
    requires ListFrom(getBucket, None, pages) != Unfinished
    modifies db
    ensures db.Valid()
    ensures ListFrom(getBucket, None, pages).ListFailed? ==>
              r == Err(PlainError("数据一致性修复失败")) && unchanged(db)
    ensures !ListFrom(getBucket, None, pages).ListFailed? ==>
              var missing := MissingInOss(parse, head, old(db.images));
              var done := FirstInUse(old(db.media), missing);
              && db.images == WithoutImages(old(db.images), missing[..done])
              && db.items == WithoutItemsOfAll(old(db.items), missing[..done])
              && db.articles == old(db.articles) && db.media == old(db.media) && db.users == old(db.users)
              && r == (if done == |missing| then Ok(FixReport(|missing|, 0))
                       else Err(PlainError("数据一致性修复失败")))
  {
    var deletedFromDatabase := 0;
    var importedToDatabase := 0;
    var consistencyResult := CheckImageConsistency(db.images, parse, head, getBucket, bucket, region, pages);
    if consistencyResult.Err? {
      return Err(PlainError(FixFailedMessage));
    }
    var missing := consistencyResult.value.missingInOSS;
    ghost var media0 := db.media;
    MissingInOssDistinct(parse, head, db.images);
    MissingInOssMembers(parse, head, db.images);
    forall k | 0 <= k < |missing| ensures HasImage(db.images, missing[k]) {
      assert missing[k] in missing;
    }
    for j := 0 to |missing|
      invariant db.Valid()
      invariant deletedFromDatabase == j
      invariant db.images == WithoutImages(old(db.images), missing[..j])
      invariant db.items == WithoutItemsOfAll(old(db.items), missing[..j])
      invariant db.articles == old(db.articles) && db.media == old(db.media) && db.users == old(db.users)
      invariant forall k :: j <= k < |missing| ==> HasImage(db.images, missing[k])
      invariant forall k :: 0 <= k < j ==> !ImageInUse(db.media, missing[k])
    {
      var imageId := missing[j];
      assert HasImage(db.images, imageId);
      FixStep(old(db.images), old(db.items), missing, j, db.images, db.items);
      var deleted := DeleteImageRows(db, imageId);
      if !deleted {
        FirstInUseAt(media0, missing, j);
        return Err(PlainError(FixFailedMessage));
      }
      deletedFromDatabase := deletedFromDatabase + 1;
    }
    FirstInUseAt(media0, missing, |missing|);
    assert missing[..|missing|] == missing;
    return Ok(FixReport(deletedFromDatabase, importedToDatabase));
  }

  /** A fix that succeeds got through every reported image: none of them
      was in use, and the report counts them all. */
  lemma FixSucceedsOnlyWhenUnused(media: seq<ArticleMedia>, missing: seq<string>, imageId: string)
    requires FirstInUse(media, missing) == |missing|
    requires imageId in missing
    ensures !ImageInUse(media, imageId)
  {
    var k :| 0 <= k < |missing| && missing[k] == imageId;
  }

  lemma {:induction false} NothingMissing(parse: UrlParser, head: HeadProbe, images: seq<Image>)
    requires forall x :: x in images ==> !ObjectMissing(parse, head, x)
    ensures MissingInOss(parse, head, images) == []
    decreases |images|
  {
    if images != [] {
      var init := images[..|images| - 1];
      assert forall x :: x in init ==> x in images;
      NothingMissing(parse, head, init);
      assert images[|images| - 1] in images;
    }
  }

  /** Against the same storage, a check after the fix finds no image whose
      object is missing. */
  lemma FixLeavesNothingMissing(parse: UrlParser, head: HeadProbe, images: seq<Image>)
    ensures MissingInOss(parse, head, WithoutImages(images, MissingInOss(parse, head, images))) == []
  {
    var missing := MissingInOss(parse, head, images);
    var after := WithoutImages(images, missing);
    MissingInOssMembers(parse, head, images);
    forall x | x in after ensures !ObjectMissing(parse, head, x) {
      var i :| 0 <= i < |images| && images[i] == x;
    }
    NothingMissing(parse, head, after);
  }
}
