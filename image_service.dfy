/** Image rows and their feed rows, written in one transaction each
    (src/services/imageService.ts). Prisma's generated ids and `now()` are
    parameters; a transaction is one atomic change of the `Database`. */
module ImageService {
  import opened Js
  import opened ErrorHandler
  import opened Schema
  import opened OssService

  const ImageMissingMessage := "图片不存在"
  const UploadImageFailedMessage := "图片上传失败"

  /** What Prisma throws when a delete would leave a required relation
      dangling (error P2003). Only that it is a plain error without a
      statusCode matters here; its text is not modelled. */
  const RestrictViolation := PlainError("Foreign key constraint failed")

  /** The column default of `waterfallItem.sortOrder` (the Prisma schema is
      not part of this model; the services never set it). */
  const DefaultSortOrder := 0

  datatype Created = Created(imageId: string, waterfallItemId: Option<string>)

  datatype Uploaded = Uploaded(url: string, imageId: string, waterfallItemId: Option<string>)

  /** The row `tx.image.create` inserts. */
  function NewImage(info: ImageInfo, id: string): (img: Image)
    ensures img.id == id && img.url == info.url
    ensures img.width == info.width && img.height == info.height && img.filename == info.filename
    ensures img.mimeType == info.mimeType && img.size == info.size
  {
    Image(id, info.url, info.width, info.height, info.filename, info.mimeType, info.size)
  }

  /** The row `tx.waterfallItem.create` inserts for a new image. */
  function NewItem(id: string, imageId: string, articleId: string, description: Option<string>, now: int)
    : (w: WaterfallItem)
    ensures w.id == id && w.imageId == imageId && w.articleId == articleId && w.description == description
    ensures w.sortOrder == DefaultSortOrder && w.createdAt == now && w.updatedAt == now
  {
    WaterfallItem(id, imageId, articleId, description, DefaultSortOrder, now, now)
  }

  /** `createImageWithTransaction`: one image row, then a feed row exactly
      when `articleId` is truthy. */
  method CreateImageWithTransaction(db: Database, info: ImageInfo, articleId: Option<string>,
                                    description: Option<string>, imageId: string, itemId: string, now: int)
    returns (r: Created)
    requires db.Valid()
    requires !HasImage(db.images, imageId)
    requires !HasItem(db.items, itemId)
    modifies db
    ensures db.Valid()
    ensures db.images == old(db.images) + [NewImage(info, imageId)]
    ensures Truthy(articleId) ==> db.items == old(db.items) + [NewItem(itemId, imageId, articleId.value, description, now)]
    ensures !Truthy(articleId) ==> db.items == old(db.items)
    ensures db.articles == old(db.articles) && db.media == old(db.media) && db.users == old(db.users)
    ensures r.imageId == imageId
    ensures r.waterfallItemId.Some? <==> Truthy(articleId)
    ensures r.waterfallItemId.Some? ==> r.waterfallItemId.value == itemId
  {
    var image := NewImage(info, imageId);
    InsertKeepsMediaImages(db.images, [image], db.media);
    InsertKeepsItemImages(db.images, image, db.items, []);
    assert db.items + [] == db.items;
    db.images := db.images + [image];
    var waterfallItemId: Option<string> := None;
    if Truthy(articleId) {
      var item := NewItem(itemId, image.id, articleId.value, description, now);
      InsertKeepsItemImages(old(db.images), image, db.items, [item]);
      db.items := db.items + [item];
      waterfallItemId := Some(item.id);
    }
    r := Created(image.id, waterfallItemId);
  }

  /** `uploadImageWithTransaction`: upload, then insert only for an image.
      Any failure of the upload becomes the one message '图片上传失败'. */
  method UploadImageWithTransaction(db: Database, file: Bytes, fileName: string, folder: Option<string>,
                                    articleId: Option<string>, description: Option<string>,
                                    uuid: string, put: Putter, objectUrl: UrlOf, decode: Decoder,
                                    imageId: string, itemId: string, now: int)
    returns (r: Result<Uploaded>)
    requires db.Valid()
    requires !HasImage(db.images, imageId)
    requires !HasItem(db.items, itemId)
    modifies db
    ensures db.Valid()
    ensures var key := StorageKey(folder, uuid, fileName);
            var info := ProcessImageMetadata(FileInfo(objectUrl(key), MetadataOf(file, ExtName(fileName), decode), Some(fileName)));
            && (!put(key, file) ==> r == Err(PlainError("图片上传失败")) && unchanged(db))
            && (put(key, file) && !info.isImage ==> r == Ok(Uploaded(info.url, "", None)) && unchanged(db))
            && (put(key, file) && info.isImage ==>
                  && r.Ok? && r.value.url == info.url && r.value.imageId == imageId
                  && (r.value.waterfallItemId.Some? <==> Truthy(articleId))
                  && (r.value.waterfallItemId.Some? ==> r.value.waterfallItemId.value == itemId)
                  && db.images == old(db.images) + [NewImage(info, imageId)]
                  && (Truthy(articleId) ==> db.items == old(db.items) + [NewItem(itemId, imageId, articleId.value, description, now)])
                  && (!Truthy(articleId) ==> db.items == old(db.items))
                  && db.articles == old(db.articles) && db.media == old(db.media) && db.users == old(db.users))
  {
    var uploaded := UploadFile(file, fileName, folder, uuid, put, objectUrl, decode);
    if uploaded.Err? {
      return Err(PlainError(UploadImageFailedMessage));
    }
    var imageInfo := uploaded.value;
    if imageInfo.isImage {
      var created := CreateImageWithTransaction(db, imageInfo, articleId, description, imageId, itemId, now);
      return Ok(Uploaded(imageInfo.url, created.imageId, created.waterfallItemId));
    }
    return Ok(Uploaded(imageInfo.url, "", None));
  }

  /** `deleteImageWithTransaction`: a missing id is an error before any
      change; otherwise the image's feed rows go first, then the image. An
      image that article media still uses makes `image.delete` throw, and
      the transaction rolls back the feed-row delete with it. */
  method DeleteImageWithTransaction(db: Database, imageId: string) returns (r: Result<bool>)
    requires db.Valid()
    modifies db
    ensures db.Valid()
    ensures !old(HasImage(db.images, imageId)) ==> r == Err(PlainError("图片不存在")) && unchanged(db)
    ensures old(HasImage(db.images, imageId)) && old(ImageInUse(db.media, imageId)) ==>
              r == Err(RestrictViolation) && unchanged(db)
    ensures old(HasImage(db.images, imageId)) && !old(ImageInUse(db.media, imageId)) ==>
              && r == Ok(true)
              && db.items == WithoutItemsOf(old(db.items), imageId)
              && db.images == WithoutImage(old(db.images), imageId)
              && db.articles == old(db.articles) && db.media == old(db.media) && db.users == old(db.users)
  {
    var image := FindImage(db.images, imageId);
    if image.None? {
      return Err(PlainError(ImageMissingMessage));
    }
    if ImageInUse(db.media, imageId) {
      return Err(RestrictViolation);
    }
    CascadeKeepsValid(db.images, db.items, imageId);
    DeleteKeepsMediaImages(db.images, db.media, imageId);
    CascadeKeepsItemImages(db.images, db.items, imageId);
    db.items := WithoutItemsOf(db.items, imageId);
    db.images := WithoutImage(db.images, imageId);
    return Ok(true);
  }

  /** Removing rows keeps the primary keys unique. */
  lemma CascadeKeepsValid(images: seq<Image>, items: seq<WaterfallItem>, imageId: string)
    requires UniqueImageIds(images) && UniqueItemIds(items)
    ensures UniqueImageIds(WithoutImage(images, imageId))
    ensures UniqueItemIds(WithoutItemsOf(items, imageId))
  {
    WithoutImageUnique(images, imageId);
    WithoutItemsUnique(items, imageId);
  }

  lemma {:induction false} WithoutImageUnique(images: seq<Image>, id: string)
    requires UniqueImageIds(images)
    ensures UniqueImageIds(WithoutImage(images, id))
    decreases |images|
  {
    if images != [] {
      var rest := WithoutImage(images[1..], id);
      assert UniqueImageIds(images[1..]) by {
        forall i, j | 0 <= i < j < |images[1..]| ensures images[1..][i].id != images[1..][j].id {
          assert images[1..][i] == images[i + 1] && images[1..][j] == images[j + 1];
        }
      }
      WithoutImageUnique(images[1..], id);
      if images[0].id != id {
        var r := [images[0]] + rest;
        forall k | 0 <= k < |rest| ensures rest[k].id != images[0].id {
          assert rest[k] in images[1..];
          var m :| 0 <= m < |images[1..]| && images[1..][m] == rest[k];
          assert images[m + 1] == rest[k];
        }
        forall i, j | 0 <= i < j < |r| ensures r[i].id != r[j].id {
          if i == 0 { assert r[j] == rest[j - 1]; }
          else { assert r[i] == rest[i - 1] && r[j] == rest[j - 1]; }
        }
      }
    }
  }

  lemma {:induction false} WithoutItemsUnique(items: seq<WaterfallItem>, imageId: string)
    requires UniqueItemIds(items)
    ensures UniqueItemIds(WithoutItemsOf(items, imageId))
    decreases |items|
  {
    if items != [] {
      var rest := WithoutItemsOf(items[1..], imageId);
      assert UniqueItemIds(items[1..]) by {
        forall i, j | 0 <= i < j < |items[1..]| ensures items[1..][i].id != items[1..][j].id {
          assert items[1..][i] == items[i + 1] && items[1..][j] == items[j + 1];
        }
      }
      WithoutItemsUnique(items[1..], imageId);
      if items[0].imageId != imageId {
        var r := [items[0]] + rest;
        forall k | 0 <= k < |rest| ensures rest[k].id != items[0].id {
          assert rest[k] in items[1..];
          var m :| 0 <= m < |items[1..]| && items[1..][m] == rest[k];
          assert items[m + 1] == rest[k];
        }
        forall i, j | 0 <= i < j < |r| ensures r[i].id != r[j].id {
          if i == 0 { assert r[j] == rest[j - 1]; }
          else { assert r[i] == rest[i - 1] && r[j] == rest[j - 1]; }
        }
      }
    }
  }

  /** After a delete no image with that id remains and no feed row refers to
      it, while every other row is still there. */
  lemma DeleteRemovesEverything(images: seq<Image>, items: seq<WaterfallItem>, imageId: string)
    ensures !HasImage(WithoutImage(images, imageId), imageId)
    ensures forall w :: w in WithoutItemsOf(items, imageId) ==> w.imageId != imageId
    ensures forall img :: img in images && img.id != imageId ==> img in WithoutImage(images, imageId)
    ensures forall w :: w in items && w.imageId != imageId ==> w in WithoutItemsOf(items, imageId)
  {
  }

  /** Filtering by an image no row refers to changes nothing. */
  lemma {:induction false} WithoutItemsOfAbsent(items: seq<WaterfallItem>, imageId: string)
    requires forall i :: 0 <= i < |items| ==> items[i].imageId != imageId
    ensures WithoutItemsOf(items, imageId) == items
    decreases |items|
  {
    if items != [] {
      WithoutItemsOfAbsent(items[1..], imageId);
      assert [items[0]] + items[1..] == items;
    }
  }

  lemma {:induction false} WithoutImageAbsent(images: seq<Image>, id: string)
    requires !HasImage(images, id)
    ensures WithoutImage(images, id) == images
    decreases |images|
  {
    if images != [] {
      WithoutImageAbsent(images[1..], id);
      assert images[0].id != id;
      assert [images[0]] + images[1..] == images;
    }
  }

  lemma {:induction false} WithoutItemsOfAppend(items: seq<WaterfallItem>, extra: seq<WaterfallItem>, imageId: string)
    ensures WithoutItemsOf(items + extra, imageId) == WithoutItemsOf(items, imageId) + WithoutItemsOf(extra, imageId)
    decreases |items|
  {
    if items == [] {
      assert items + extra == extra;
    } else {
      assert (items + extra)[1..] == items[1..] + extra;
      WithoutItemsOfAppend(items[1..], extra, imageId);
    }
  }

  lemma {:induction false} WithoutImageAppend(images: seq<Image>, extra: seq<Image>, id: string)
    ensures WithoutImage(images + extra, id) == WithoutImage(images, id) + WithoutImage(extra, id)
    decreases |images|
  {
    if images == [] {
      assert images + extra == extra;
    } else {
      assert (images + extra)[1..] == images[1..] + extra;
      WithoutImageAppend(images[1..], extra, id);
    }
  }

  /** Deleting a freshly created image undoes the creation: both tables are
      back to what they were before, the new feed row included. */
  lemma CreateThenDeleteRestores(images: seq<Image>, items: seq<WaterfallItem>, info: ImageInfo,
                                 articleId: string, description: Option<string>,
                                 imageId: string, itemId: string, now: int)
    requires !HasImage(images, imageId)
    requires forall i :: 0 <= i < |items| ==> items[i].imageId != imageId
    ensures WithoutImage(images + [NewImage(info, imageId)], imageId) == images
    ensures WithoutItemsOf(items + [NewItem(itemId, imageId, articleId, description, now)], imageId) == items
    ensures WithoutItemsOf(items, imageId) == items
  {
    WithoutImageAppend(images, [NewImage(info, imageId)], imageId);
    WithoutImageAbsent(images, imageId);
    WithoutItemsOfAppend(items, [NewItem(itemId, imageId, articleId, description, now)], imageId);
    WithoutItemsOfAbsent(items, imageId);
  }
}
