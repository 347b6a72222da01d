/** Article read and create (src/services/articleService.ts). The read is a
    pure join over the tables; the create checks the author and the image
    ids, then inserts the article and its media rows in one transaction.
    Prisma's generated article id and `now()` are parameters. */
module ArticleService {
  import opened Js
  import opened ErrorHandler
  import opened Schema
  import opened Ordering

  const UnknownAuthorName := "未知"

  /** One entry of `images` in the read result. */
  datatype MediaImage = MediaImage(id: string, url: string, width: Option<int>, height: Option<int>)

  datatype ArticleView = ArticleView(
    id: string,
    title: string,
    content: string,
    authorId: string,
    authorName: string,
    images: seq<MediaImage>,
    createdAt: int,
    updatedAt: int)

  /** What `createArticle` returns. */
  datatype ArticleSummary = ArticleSummary(
    id: string,
    title: string,
    content: string,
    authorId: string,
    authorName: string,
    createdAt: int,
    updatedAt: int)

  /** `author.name || author.username || '未知'`. */
  function AuthorName(author: User): (n: string)
    ensures Truthy(author.name) ==> n == author.name.value
    ensures !Truthy(author.name) && author.username != "" ==> n == author.username
    ensures !Truthy(author.name) && author.username == "" ==> n == "未知"
    ensures n != ""
  {
    OrElse(Or(author.name, Some(author.username)), UnknownAuthorName)
  }

  /** The media rows of one article, in table order. */
  function MediaOf(media: seq<ArticleMedia>, articleId: string): (r: seq<ArticleMedia>)
    ensures forall m :: m in r <==> m in media && m.articleId == articleId
    decreases |media|
  {
    if media == [] then []
    else (if media[0].articleId == articleId then [media[0]] else []) + MediaOf(media[1..], articleId)
  }

  /** `orderBy: { sortOrder: 'asc' }`. */
  function MediaKey(m: ArticleMedia): Key {
    (m.sortOrder, 0)
  }

  /** The article's media rows in the order the read returns them. */
  function ArticleMediaOrder(media: seq<ArticleMedia>, articleId: string): (r: seq<ArticleMedia>)
    ensures |r| == |MediaOf(media, articleId)|
    ensures multiset(r) == multiset(MediaOf(media, articleId))
    ensures forall m :: m in r <==> m in media && m.articleId == articleId
  {
    SortBySameElements(MediaOf(media, articleId), MediaKey);
    SortBy(MediaOf(media, articleId), MediaKey)
  }

  function ProjectImage(m: ArticleMedia, images: seq<Image>): (p: MediaImage)
    requires HasImage(images, m.imageId)
    ensures p.id == m.imageId
  {
    var img := FindImage(images, m.imageId).value;
    MediaImage(img.id, img.url, img.width, img.height)
  }

  function ProjectAll(ms: seq<ArticleMedia>, images: seq<Image>): (r: seq<MediaImage>)
    requires forall m :: m in ms ==> HasImage(images, m.imageId)
    ensures |r| == |ms|
    ensures forall k :: 0 <= k < |r| ==> r[k] == ProjectImage(ms[k], images)
    decreases |ms|
  {
    if ms == [] then [] else [ProjectImage(ms[0], images)] + ProjectAll(ms[1..], images)
  }

  /** `getArticleById`. The author and every media image of the article
      exist, as the required relations of the store guarantee. */
  function GetArticleById(articles: seq<Article>, users: seq<User>, media: seq<ArticleMedia>,
                          images: seq<Image>, articleId: string)
    : (r: Result<ArticleView>)
    requires forall a :: a in articles && a.id == articleId ==> HasUser(users, a.authorId)
    requires forall m :: m in media && m.articleId == articleId ==> HasImage(images, m.imageId)
    ensures r.Err? <==> !HasArticle(articles, articleId)
    ensures r.Err? ==> r.error == AppError("文章不存在", Some(404), None)
    ensures r.Ok? ==>
              var a := FindArticle(articles, articleId).value;
              && r.value.id == articleId && r.value.title == a.title && r.value.content == a.content
              && r.value.authorId == a.authorId
              && r.value.createdAt == a.createdAt && r.value.updatedAt == a.updatedAt
              && r.value.authorName == AuthorName(FindUser(users, a.authorId).value)
    ensures r.Ok? ==>
              var order := ArticleMediaOrder(media, articleId);
              && |r.value.images| == |MediaOf(media, articleId)|
              && forall k :: 0 <= k < |r.value.images| ==> r.value.images[k] == ProjectImage(order[k], images)
  {
    match FindArticle(articles, articleId)
    case None => Err(StatusError("文章不存在", 404))
    case Some(a) =>
      var author := FindUser(users, a.authorId).value;
      var order := ArticleMediaOrder(media, articleId);
      Ok(ArticleView(a.id, a.title, a.content, a.authorId, AuthorName(author),
                     ProjectAll(order, images), a.createdAt, a.updatedAt))
  }

  /** The read lists the images in ascending media sortOrder. */
  lemma ImagesInSortOrder(media: seq<ArticleMedia>, articleId: string, i: int, j: int)
    requires 0 <= i < j < |ArticleMediaOrder(media, articleId)|
    ensures ArticleMediaOrder(media, articleId)[i].sortOrder <= ArticleMediaOrder(media, articleId)[j].sortOrder
  {
    SortBySorted(MediaOf(media, articleId), MediaKey);
  }

  // ----- create -----

  /** How many image rows `findMany({ where: { id: { in: imageIds } } })`
      returns. */
  function MatchCount(images: seq<Image>, ids: seq<string>): (n: nat)
    ensures n <= |images|
    decreases |images|
  {
    if images == [] then 0
    else (if images[0].id in ids then 1 else 0) + MatchCount(images[1..], ids)
  }

  /** The ids of those rows. */
  function MatchedIds(images: seq<Image>, ids: seq<string>): (r: set<string>)
    decreases |images|
  {
    if images == [] then {}
    else (if images[0].id in ids then {images[0].id} else {}) + MatchedIds(images[1..], ids)
  }

  lemma {:induction false} MatchedIdsMembers(images: seq<Image>, ids: seq<string>)
    ensures forall x :: x in MatchedIds(images, ids) <==> x in ids && HasImage(images, x)
    decreases |images|
  {
    if images != [] {
      MatchedIdsMembers(images[1..], ids);
      forall x ensures x in MatchedIds(images, ids) <==> x in ids && HasImage(images, x) {
        if HasImage(images, x) && images[0].id != x {
          var i :| 0 <= i < |images| && images[i].id == x;
          assert images[1..][i - 1].id == x;
        }
        if HasImage(images[1..], x) {
          var i :| 0 <= i < |images[1..]| && images[1..][i].id == x;
          assert images[i + 1].id == x;
        }
      }
    }
  }

  /** With unique image ids, the count is the number of distinct matched ids. */
  lemma {:induction false} MatchCountIsCard(images: seq<Image>, ids: seq<string>)
    requires UniqueImageIds(images)
    ensures MatchCount(images, ids) == |MatchedIds(images, ids)|
    decreases |images|
  {
    if images != [] {
      var rest := images[1..];
      assert UniqueImageIds(rest) by {
        forall i, j | 0 <= i < j < |rest| ensures rest[i].id != rest[j].id {
          assert rest[i] == images[i + 1] && rest[j] == images[j + 1];
        }
      }
      MatchCountIsCard(rest, ids);
      MatchedIdsMembers(rest, ids);
      assert images[0].id !in MatchedIds(rest, ids);
    }
  }

  /** The set of a list's elements. */
  function IdSet(ids: seq<string>): (r: set<string>)
    ensures forall x :: x in r <==> x in ids
    ensures |r| <= |ids|
    decreases |ids|
  {
    if ids == [] then {}
    else
      var init := ids[..|ids| - 1];
      assert ids == init + [ids[|ids| - 1]];
      IdSet(init) + {ids[|ids| - 1]}
  }

  lemma DistinctSnoc(init: seq<string>, x: string)
    requires x !in init
    ensures Distinct(init + [x]) <==> Distinct(init)
  {
    var ids := init + [x];
    if Distinct(init) {
      forall i, j | 0 <= i < j < |ids| ensures ids[i] != ids[j] {
        assert ids[i] == init[i];
        if j < |init| { assert ids[j] == init[j]; }
      }
    }
    if Distinct(ids) {
      forall i, j | 0 <= i < j < |init| ensures init[i] != init[j] {
        assert ids[i] == init[i] && ids[j] == init[j];
      }
    }
  }

  lemma {:induction false} IdSetFull(ids: seq<string>)
    ensures |IdSet(ids)| == |ids| <==> Distinct(ids)
    decreases |ids|
  {
    if ids != [] {
      var init := ids[..|ids| - 1];
      var last := ids[|ids| - 1];
      assert ids == init + [last];
      assert IdSet(ids) == IdSet(init) + {last};
      IdSetFull(init);
      if last in init {
        var k :| 0 <= k < |init| && init[k] == last;
        assert ids[k] == ids[|ids| - 1];
        assert IdSet(ids) == IdSet(init);
      } else {
        DistinctSnoc(init, last);
      }
    }
  }

  /** The count test `images.length !== imageIds.length` rejects exactly the
      lists that name an absent image or name some image twice. */
  lemma CountTestIff(images: seq<Image>, ids: seq<string>)
    requires UniqueImageIds(images)
    ensures MatchCount(images, ids) == |ids| <==>
              (forall id :: id in ids ==> HasImage(images, id)) && Distinct(ids)
  {
    MatchCountIsCard(images, ids);
    MatchedIdsMembers(images, ids);
    IdSetFull(ids);
    var m := MatchedIds(images, ids);
    var s := IdSet(ids);
    assert m <= s;
    assert |s| == |m| + |s - m|;
    if (forall id :: id in ids ==> HasImage(images, id)) {
      assert s <= m;
      assert m == s;
    }
    if |m| == |ids| {
      assert |s - m| == 0;
      assert s - m == {};
      forall id | id in ids ensures HasImage(images, id) {
        assert id in s;
        assert id in m;
      }
    }
  }

  lemma {:induction false} MatchCountNoIds(images: seq<Image>)
    ensures MatchCount(images, []) == 0
    decreases |images|
  {
    if images != [] {
      MatchCountNoIds(images[1..]);
    }
  }

  /** The media rows the create inserts: one per id, ranked by position. */
  function MediaRows(articleId: string, ids: seq<string>): (r: seq<ArticleMedia>)
    ensures |r| == |ids|
    ensures forall k :: 0 <= k < |r| ==> r[k] == ArticleMedia(articleId, ids[k], k)
  {
    seq(|ids|, k requires 0 <= k < |ids| => ArticleMedia(articleId, ids[k], k))
  }

  function NewArticle(id: string, title: string, content: string, authorId: string, now: int): Article {
    Article(id, title, content, authorId, now, now)
  }

  /** The ids the create is asked to attach (`imageIds` absent is none). */
  function IdsOf(imageIds: Option<seq<string>>): seq<string> {
    if imageIds.Some? then imageIds.value else []
  }

  /** `createArticle`: a missing author is a 404, a failed count test a 400,
      both before any write; otherwise one article and its media rows. */
  method CreateArticle(db: Database, title: string, content: string, authorId: string,
                       imageIds: Option<seq<string>>, articleId: string, now: int)
    returns (r: Result<ArticleSummary>)
    requires db.Valid()
    requires !HasArticle(db.articles, articleId)
    modifies db
    ensures db.Valid()
    ensures !HasUser(old(db.users), authorId) ==> r == Err(AppError("作者不存在", Some(404), None))
    ensures HasUser(old(db.users), authorId) && |IdsOf(imageIds)| > 0 && MatchCount(old(db.images), IdsOf(imageIds)) != |IdsOf(imageIds)| ==>
              r == Err(AppError("部分图片不存在", Some(400), None))
    ensures r.Ok? <==> HasUser(old(db.users), authorId) && MatchCount(old(db.images), IdsOf(imageIds)) == |IdsOf(imageIds)|
    ensures r.Err? ==> unchanged(db)
    ensures r.Ok? ==>
              && db.articles == old(db.articles) + [NewArticle(articleId, title, content, authorId, now)]
              && db.media == old(db.media) + MediaRows(articleId, IdsOf(imageIds))
              && db.images == old(db.images) && db.items == old(db.items) && db.users == old(db.users)
              && r.value == ArticleSummary(articleId, title, content, authorId,
                                           AuthorName(FindUser(old(db.users), authorId).value), now, now)
  {
    var author := FindUser(db.users, authorId);
    if author.None? {
      return Err(StatusError("作者不存在", 404));
    }
    var ids := IdsOf(imageIds);
    MatchCountNoIds(db.images);
    if imageIds.Some? && |imageIds.value| > 0 {
      if MatchCount(db.images, imageIds.value) != |imageIds.value| {
        return Err(StatusError("部分图片不存在", 400));
      }
    }
    CountTestIff(db.images, ids);
    NewMediaResolves(db.images, db.media, articleId, ids);
    var created := NewArticle(articleId, title, content, authorId, now);
    CreateKeepsValid(db.articles, db.users, db.media, created, MediaRows(articleId, ids));
    db.articles := db.articles + [created];
    if imageIds.Some? && |imageIds.value| > 0 {
      db.media := db.media + MediaRows(created.id, imageIds.value);
    } else {
      assert MediaRows(articleId, ids) == [];
    }
    return Ok(ArticleSummary(created.id, created.title, created.content, created.authorId,
                             AuthorName(author.value), created.createdAt, created.updatedAt));
  }

  /** The foreign keys and the article key still hold after the insert. */
  lemma CreateKeepsValid(articles: seq<Article>, users: seq<User>, media: seq<ArticleMedia>,
                         created: Article, rows: seq<ArticleMedia>)
    requires UniqueArticleIds(articles) && !HasArticle(articles, created.id)
    requires forall a :: a in articles ==> HasUser(users, a.authorId)
    requires HasUser(users, created.authorId)
    requires forall m :: m in media ==> HasArticle(articles, m.articleId)
    requires forall m :: m in rows ==> m.articleId == created.id
    ensures UniqueArticleIds(articles + [created])
    ensures forall a :: a in articles + [created] ==> HasUser(users, a.authorId)
    ensures forall m :: m in media + rows ==> HasArticle(articles + [created], m.articleId)
  {
    var all := articles + [created];
    assert all[|articles|] == created;
    forall m | m in media + rows ensures HasArticle(all, m.articleId) {
      if m in media {
        var i :| 0 <= i < |articles| && articles[i].id == m.articleId;
        assert all[i] == articles[i];
      }
    }
    forall i, j | 0 <= i < j < |all| ensures all[i].id != all[j].id {
      if j < |articles| {
        assert all[i] == articles[i] && all[j] == articles[j];
      } else {
        assert all[i] == articles[i];
      }
    }
  }

  /** The new media rows point at existing images once every id exists. */
  lemma NewMediaResolves(images: seq<Image>, media: seq<ArticleMedia>, articleId: string, ids: seq<string>)
    requires forall m :: m in media ==> HasImage(images, m.imageId)
    requires forall id :: id in ids ==> HasImage(images, id)
    ensures forall m :: m in media + MediaRows(articleId, ids) ==> HasImage(images, m.imageId)
  {
    var rows := MediaRows(articleId, ids);
    forall m | m in media + rows ensures HasImage(images, m.imageId) {
      if m !in media {
        var k :| 0 <= k < |rows| && rows[k] == m;
        assert ids[k] in ids;
      }
    }
  }

  lemma {:induction false} MediaOfAppend(a: seq<ArticleMedia>, b: seq<ArticleMedia>, articleId: string)
    ensures MediaOf(a + b, articleId) == MediaOf(a, articleId) + MediaOf(b, articleId)
    decreases |a|
  {
    if a == [] {
      assert a + b == b;
    } else {
      assert (a + b)[1..] == a[1..] + b;
      MediaOfAppend(a[1..], b, articleId);
    }
  }

  lemma {:induction false} MediaOfAll(rows: seq<ArticleMedia>, articleId: string)
    requires forall k :: 0 <= k < |rows| ==> rows[k].articleId == articleId
    ensures MediaOf(rows, articleId) == rows
    decreases |rows|
  {
    if rows != [] {
      MediaOfAll(rows[1..], articleId);
      assert [rows[0]] + rows[1..] == rows;
    }
  }

  lemma {:induction false} MediaOfNone(media: seq<ArticleMedia>, articleId: string)
    requires forall k :: 0 <= k < |media| ==> media[k].articleId != articleId
    ensures MediaOf(media, articleId) == []
    decreases |media|
  {
    if media != [] {
      MediaOfNone(media[1..], articleId);
    }
  }

  lemma {:induction false} FindArticleAppend(articles: seq<Article>, a: Article)
    requires !HasArticle(articles, a.id)
    ensures FindArticle(articles + [a], a.id) == Some(a)
    decreases |articles|
  {
    if articles == [] {
      assert articles + [a] == [a];
    } else {
      assert (articles + [a])[1..] == articles[1..] + [a];
      FindArticleAppend(articles[1..], a);
    }
  }

  /** The new article's media rows, and only they, are its media, already
      in sortOrder. */
  lemma NewMediaOrder(articles: seq<Article>, media: seq<ArticleMedia>, articleId: string, ids: seq<string>)
    requires !HasArticle(articles, articleId)
    requires forall m :: m in media ==> HasArticle(articles, m.articleId)
    ensures MediaOf(media + MediaRows(articleId, ids), articleId) == MediaRows(articleId, ids)
    ensures ArticleMediaOrder(media + MediaRows(articleId, ids), articleId) == MediaRows(articleId, ids)
  {
    var rows := MediaRows(articleId, ids);
    forall k | 0 <= k < |media| ensures media[k].articleId != articleId {
      assert media[k] in media;
    }
    MediaOfNone(media, articleId);
    MediaOfAll(rows, articleId);
    MediaOfAppend(media, rows, articleId);
    assert MediaOf(media, articleId) + rows == rows;
    assert SortedBy(rows, MediaKey);
    SortByOfSorted(rows, MediaKey);
  }

  /** Reading a freshly created article returns its images in exactly the
      order of `imageIds`, and its author's display name. */
  lemma CreateThenRead(articles: seq<Article>, users: seq<User>, media: seq<ArticleMedia>, images: seq<Image>,
                       title: string, content: string, authorId: string, ids: seq<string>,
                       articleId: string, now: int)
    requires !HasArticle(articles, articleId)
    requires forall m :: m in media ==> HasArticle(articles, m.articleId)
    requires HasUser(users, authorId)
    requires forall id :: id in ids ==> HasImage(images, id)
    ensures var r := GetArticleById(articles + [NewArticle(articleId, title, content, authorId, now)], users,
                                    media + MediaRows(articleId, ids), images, articleId);
            && r.Ok?
            && r.value.authorName == AuthorName(FindUser(users, authorId).value)
            && |r.value.images| == |ids|
            && forall k :: 0 <= k < |ids| ==> r.value.images[k].id == ids[k]
  {
    var created := NewArticle(articleId, title, content, authorId, now);
    var rows := MediaRows(articleId, ids);
    var all := articles + [created];
    var allMedia := media + rows;
    FindArticleAppend(articles, created);
    NewMediaOrder(articles, media, articleId, ids);
    forall a | a in all && a.id == articleId ensures HasUser(users, a.authorId) {
      assert a == created;
    }
    forall m | m in allMedia && m.articleId == articleId ensures HasImage(images, m.imageId) {
      assert m in MediaOf(allMedia, articleId);
      var k :| 0 <= k < |rows| && rows[k] == m;
      assert ids[k] in ids;
    }
    var r := GetArticleById(all, users, allMedia, images, articleId);
    assert FindArticle(all, articleId) == Some(created);
    forall k | 0 <= k < |ids| ensures r.value.images[k].id == ids[k] {
      assert r.value.images[k] == ProjectImage(rows[k], images);
    }
  }
}
