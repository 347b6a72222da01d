/** The relational tables the services read and write. Each table is a
    sequence of records in storage order; the Prisma schema itself is not
    part of this model, so only the columns the services touch appear.
    Timestamps are integers (milliseconds). */
module Schema {
  import opened Js

  /** One persisted session (`userToken` table). */
  datatype UserToken = UserToken(
    id: string,
    userId: string,
    accessToken: string,
    refreshToken: string,
    accessExpiresAt: int,
    refreshExpiresAt: int,
    createdAt: int,
    revokedAt: Option<int>)

  /** `image` table. The nullable columns are optional. */
  datatype Image = Image(
    id: string,
    url: string,
    width: Option<int>,
    height: Option<int>,
    filename: Option<string>,
    mimeType: Option<string>,
    size: Option<int>)

  /** `waterfallItem` table: one feed row joining an image to an article. */
  datatype WaterfallItem = WaterfallItem(
    id: string,
    imageId: string,
    articleId: string,
    description: Option<string>,
    sortOrder: int,
    createdAt: int,
    updatedAt: int)

  datatype Article = Article(
    id: string,
    title: string,
    content: string,
    authorId: string,
    createdAt: int,
    updatedAt: int)

  /** `articleMedia` table: the ordered join between articles and images. */
  datatype ArticleMedia = ArticleMedia(articleId: string, imageId: string, sortOrder: int)

  datatype Permission = Permission(code: string)

  datatype Role = Role(name: string, permissions: seq<Permission>)

  /** A user row together with the roles Prisma includes for it. */
  datatype User = User(
    id: string,
    username: string,
    name: Option<string>,
    phone: Option<string>,
    avatar: Option<string>,
    bio: Option<string>,
    roles: seq<Role>,
    createdAt: int,
    updatedAt: int)

  ghost predicate UniqueImageIds(images: seq<Image>) {
    forall i, j :: 0 <= i < j < |images| ==> images[i].id != images[j].id
  }

  ghost predicate UniqueItemIds(items: seq<WaterfallItem>) {
    forall i, j :: 0 <= i < j < |items| ==> items[i].id != items[j].id
  }

  ghost predicate UniqueArticleIds(articles: seq<Article>) {
    forall i, j :: 0 <= i < j < |articles| ==> articles[i].id != articles[j].id
  }

  /** No id occurs twice in a list of ids. */
  ghost predicate Distinct(s: seq<string>) {
    forall i, j :: 0 <= i < j < |s| ==> s[i] != s[j]
  }

  predicate HasUser(users: seq<User>, id: string) {
    exists i :: 0 <= i < |users| && users[i].id == id
  }

  predicate HasImage(images: seq<Image>, id: string) {
    exists i :: 0 <= i < |images| && images[i].id == id
  }

  predicate HasItem(items: seq<WaterfallItem>, id: string) {
    exists i :: 0 <= i < |items| && items[i].id == id
  }

  predicate HasArticle(articles: seq<Article>, id: string) {
    exists i :: 0 <= i < |articles| && articles[i].id == id
  }

  /** `findUnique({ where: { id } })` on the image table. */
  function FindImage(images: seq<Image>, id: string): (r: Option<Image>)
    ensures r.Some? ==> r.value in images && r.value.id == id
    ensures r.None? <==> !HasImage(images, id)
  {
    if images == [] then None
    else if images[0].id == id then Some(images[0])
    else
      var r := FindImage(images[1..], id);
      assert HasImage(images, id) ==> images[0].id == id || HasImage(images[1..], id) by {
        if HasImage(images, id) {
          var i :| 0 <= i < |images| && images[i].id == id;
          if i > 0 { assert images[1..][i - 1].id == id; }
        }
      }
      assert HasImage(images[1..], id) ==> HasImage(images, id) by {
        if HasImage(images[1..], id) {
          var i :| 0 <= i < |images[1..]| && images[1..][i].id == id;
          assert images[i + 1].id == id;
        }
      }
      r
  }

  function FindArticle(articles: seq<Article>, id: string): (r: Option<Article>)
    ensures r.Some? ==> r.value in articles && r.value.id == id
    ensures r.None? <==> !HasArticle(articles, id)
  {
    if articles == [] then None
    else if articles[0].id == id then Some(articles[0])
    else
      assert HasArticle(articles, id) ==> articles[0].id == id || HasArticle(articles[1..], id) by {
        if HasArticle(articles, id) {
          var i :| 0 <= i < |articles| && articles[i].id == id;
          if i > 0 { assert articles[1..][i - 1].id == id; }
        }
      }
      assert HasArticle(articles[1..], id) ==> HasArticle(articles, id) by {
        if HasArticle(articles[1..], id) {
          var i :| 0 <= i < |articles[1..]| && articles[1..][i].id == id;
          assert articles[i + 1].id == id;
        }
      }
      FindArticle(articles[1..], id)
  }

  function FindUser(users: seq<User>, id: string): (r: Option<User>)
    ensures r.Some? ==> r.value in users && r.value.id == id
    ensures r.None? <==> !HasUser(users, id)
  {
    if users == [] then None
    else if users[0].id == id then Some(users[0])
    else
      assert HasUser(users, id) ==> users[0].id == id || HasUser(users[1..], id) by {
        if HasUser(users, id) {
          var i :| 0 <= i < |users| && users[i].id == id;
          if i > 0 { assert users[1..][i - 1].id == id; }
        }
      }
      assert HasUser(users[1..], id) ==> HasUser(users, id) by {
        if HasUser(users[1..], id) {
          var i :| 0 <= i < |users[1..]| && users[1..][i].id == id;
          assert users[i + 1].id == id;
        }
      }
      FindUser(users[1..], id)
  }

  /** `deleteMany({ where: { imageId } })` on the feed table. */
  function WithoutItemsOf(items: seq<WaterfallItem>, imageId: string): (r: seq<WaterfallItem>)
    ensures |r| <= |items|
    ensures forall x :: x in r <==> x in items && x.imageId != imageId
    decreases |items|
  {
    if items == [] then []
    else
      var rest := WithoutItemsOf(items[1..], imageId);
      if items[0].imageId == imageId then rest else [items[0]] + rest
  }

  /** `delete({ where: { id } })` on the image table (all rows with that id). */
  function WithoutImage(images: seq<Image>, id: string): (r: seq<Image>)
    ensures |r| <= |images|
    ensures forall x :: x in r <==> x in images && x.id != id
    decreases |images|
  {
    if images == [] then []
    else
      var rest := WithoutImage(images[1..], id);
      if images[0].id == id then rest else [images[0]] + rest
  }

  /** Some article media row points at the image: the required
      `articleMedia.image` relation then refuses to let the image go. */
  predicate ImageInUse(media: seq<ArticleMedia>, imageId: string) {
    exists i :: 0 <= i < |media| && media[i].imageId == imageId
  }

  /** Deleting one image keeps every other image. */
  lemma StillPresent(images: seq<Image>, a: string, b: string)
    requires HasImage(images, a) && a != b
    ensures HasImage(WithoutImage(images, b), a)
  {
    var i :| 0 <= i < |images| && images[i].id == a;
    var r := WithoutImage(images, b);
    assert images[i] in r;
    var k :| 0 <= k < |r| && r[k] == images[i];
  }

  /** Deleting an image no media row uses keeps every media image resolving. */
  lemma DeleteKeepsMediaImages(images: seq<Image>, media: seq<ArticleMedia>, imageId: string)
    requires forall m :: m in media ==> HasImage(images, m.imageId)
    requires !ImageInUse(media, imageId)
    ensures forall m :: m in media ==> HasImage(WithoutImage(images, imageId), m.imageId)
  {
    forall m | m in media ensures HasImage(WithoutImage(images, imageId), m.imageId) {
      var i :| 0 <= i < |media| && media[i] == m;
      StillPresent(images, m.imageId, imageId);
    }
  }

  /** Adding image rows keeps every media image resolving. */
  lemma InsertKeepsMediaImages(images: seq<Image>, extra: seq<Image>, media: seq<ArticleMedia>)
    requires forall m :: m in media ==> HasImage(images, m.imageId)
    ensures forall m :: m in media ==> HasImage(images + extra, m.imageId)
  {
    forall m | m in media ensures HasImage(images + extra, m.imageId) {
      var i :| 0 <= i < |images| && images[i].id == m.imageId;
      assert (images + extra)[i] == images[i];
    }
  }

  /** Deleting an image together with its feed rows keeps every remaining
      feed row's image resolving. */
  lemma CascadeKeepsItemImages(images: seq<Image>, items: seq<WaterfallItem>, imageId: string)
    requires forall w :: w in items ==> HasImage(images, w.imageId)
    ensures forall w :: w in WithoutItemsOf(items, imageId) ==> HasImage(WithoutImage(images, imageId), w.imageId)
  {
    forall w | w in WithoutItemsOf(items, imageId) ensures HasImage(WithoutImage(images, imageId), w.imageId) {
      StillPresent(images, w.imageId, imageId);
    }
  }

  /** Appending one image, and optionally feed rows for it, keeps every
      feed row's image resolving. */
  lemma InsertKeepsItemImages(images: seq<Image>, image: Image, items: seq<WaterfallItem>, extra: seq<WaterfallItem>)
    requires forall w :: w in items ==> HasImage(images, w.imageId)
    requires forall w :: w in extra ==> w.imageId == image.id
    ensures forall w :: w in items + extra ==> HasImage(images + [image], w.imageId)
  {
    assert (images + [image])[|images|] == image;
    forall w | w in items + extra ensures HasImage(images + [image], w.imageId) {
      if w in items {
        var i :| 0 <= i < |images| && images[i].id == w.imageId;
        assert (images + [image])[i] == images[i];
      }
    }
  }

  /** The connection to the relational store. `Valid` holds the primary-key
      facts and the required relations: every article has its author, every
      media row its article and its image, and every feed row its image.
      The feed row's article is not held. */
  class Database {
    var images: seq<Image>
    var items: seq<WaterfallItem>
    var articles: seq<Article>
    var media: seq<ArticleMedia>
    var users: seq<User>

    ghost predicate Valid()
      reads this
    {
      && UniqueImageIds(images)
      && UniqueItemIds(items)
      && UniqueArticleIds(articles)
      && (forall a :: a in articles ==> HasUser(users, a.authorId))
      && (forall m :: m in media ==> HasArticle(articles, m.articleId))
      && (forall m :: m in media ==> HasImage(images, m.imageId))
      && (forall w :: w in items ==> HasImage(images, w.imageId))
    }

    constructor (images: seq<Image>, items: seq<WaterfallItem>, articles: seq<Article>,
                 media: seq<ArticleMedia>, users: seq<User>)
      ensures this.images == images && this.items == items && this.articles == articles
      ensures this.media == media && this.users == users
    {
      this.images := images;
      this.items := items;
      this.articles := articles;
      this.media := media;
      this.users := users;
    }
  }
}
