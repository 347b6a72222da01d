# flutter_ex1_back core, modelled in Dafny

The service is an Express backend for a Flutter image-feed app, backed by
PostgreSQL (through Prisma) and Tencent COS object storage. This project
models its core:

- **Tokens.** JWT access and refresh tokens are issued, verified and
  reissued. An access token is also checked against the token table. The
  bearer-token middleware and the central JSON error envelope are included.
- **Authentication endpoints.** The request guards of login, refresh and
  check-token, and the soft revocation on logout.
- **Uploads.** The object key and extension are derived from the file
  name, the image metadata is read, and the upload becomes a database
  insert of an image with its feed row. Deletion cascades from an image to
  its feed rows.
- **Articles.** Reads with author and ordered images; creation with an
  existence check on the author and on every image given.
- **Users.** The profile with a masked phone number, and the guard on
  reading the real number.
- **The paginated waterfall feed.**
- **The image reconciler.** It compares the image table with the COS
  listing and deletes rows whose object has gone.
- **The permission seed.** The category x action catalogue, the two
  permission checks and the role presets.

There is one module per source file:

| module | source file |
|---|---|
| `Jwt` | `src/utils/jwt.ts` |
| `TokenService` | `src/services/tokenService.ts` |
| `AuthMiddleware` | `src/middlewares/auth.ts` |
| `ErrorHandler` | `src/middlewares/errorHandler.ts` |
| `AuthController` | `src/controllers/authController.ts` |
| `OssService` | `src/services/ossService.ts` |
| `ImageService` | `src/services/imageService.ts` |
| `ArticleService` | `src/services/articleService.ts` |
| `UserService` | `src/services/userService.ts` |
| `WaterfallService` | `src/services/waterfallService.ts` |
| `DataConsistency` | `src/utils/dataConsistency.ts` |
| `Permissions` | `prisma/seed_permissions.js` |

Three modules support the others:

- `Js` has JavaScript's optional values, `||` truthiness, `split` and ASCII
  lower-casing.
- `Schema` has the rows of the tables. The mutable store is class
  `Schema.Database`, with the tables as `seq` fields and the unique keys
  and foreign keys as `Valid()`. The token table is an `array`, because
  logout updates it row by row.
- `Ordering` is a stable insertion sort standing for Prisma's `orderBy`.

Read-only services (token validation, article read, user info, the feed)
are functions over the tables. Transactions are methods on `Database`,
proved against the new state they promise.

Libraries and the outside world are function-typed parameters:

- `jwt.verify` / `jwt.sign`: `Jwt.Verifier`, `Jwt.Signer`.
- COS `putObject`, `getObjectUrl`, `headObject` and `getBucket`.
- `sharp(...).metadata()`.
- `new URL(...).pathname`.
- `uuid`, and the clock (`now`).
- The ids Prisma generates are arguments that must not be in use yet.

## Model

| member | source | states |
|---|---|---|
| Jwt.SignWith | src/utils/jwt.ts:25-48 | a signing result is the signer's token, or a plain error carrying the signer's message |
| Jwt.GenerateAccessToken | src/utils/jwt.ts:25-33 | access tokens are signed with the lifetime "15m" |
| Jwt.GenerateRefreshToken | src/utils/jwt.ts:40-48 | refresh tokens are signed with the lifetime "30d" |
| Jwt.ClassifyFailure | src/utils/jwt.ts:59-67 | expiry is checked first: an expired token reports 'Token已过期' even though its error is also a JsonWebTokenError; then 'Token无效'; anything else 'Token验证失败' |
| Jwt.VerifyToken | src/utils/jwt.ts:55-68 | success exactly when the library decodes, returning its payload; a failure is a plain Error with one of the three messages, and it is the expiry message iff the library error is a TokenExpiredError |
| Jwt.SpreadWithoutTypeAndExpiresIn | src/utils/jwt.ts:82 | the rest-spread drops `type` and `expiresIn` only, so the user claims and the registered `iat`/`exp` claims survive |
| Jwt.ReissuePayload | src/utils/jwt.ts:81-83 | the payload of a reissued access token keeps the user claims and has no type, expiresIn, iat or exp |
| Jwt.RefreshTokenAsWritten | src/utils/jwt.ts:75-84 | verification errors pass through; a non-refresh token gets '只有refresh_token才能用于刷新'; a refresh token has its spread payload signed for 15m |
| Jwt.RefreshToken | src/utils/jwt.ts:75-84 | the same gate and error paths, signing the stripped payload; success implies a verified refresh token |
| Jwt.RefreshAsWrittenAlwaysFails | src/utils/jwt.ts:82-83 | with a signer that refuses `exp` together with expiresIn, the code as written fails for every verified token that carries `exp` |
| Jwt.RefreshSucceedsForRefreshTokens | src/utils/jwt.ts:75-84 | the corrected version succeeds on every verified refresh token and returns the signer's token for the stripped payload |
| TokenService.ValidateAccessToken | src/services/tokenService.ts:18-56 | a verification failure maps to status 200 / code 401 with the classified message; a decoded token validates iff some row has the same token and user, is unexpired at `now` and is unrevoked; otherwise 'Token已失效' |
| TokenService.RevokedNeverValidates | src/services/tokenService.ts:36-53 | if every row of a token is revoked, validation gives 'Token已失效', whatever the expiry |
| TokenService.FailureEnvelope | src/services/tokenService.ts:22-53 | every validation failure reaches the client as HTTP 200 with code 200 and inner error code 401 |
| ErrorHandler.BuildEnvelope | src/middlewares/errorHandler.ts:17-39 | status and code default to 500 unless truthy; the message defaults to 'Internal Server Error'; the stack is present only in development |
| AuthMiddleware.BearerToken | src/middlewares/auth.ts:32 | the token is the second space-separated field of a truthy header; it exists iff the header has at least two fields |
| AuthMiddleware.RemapError | src/middlewares/auth.ts:43-50 | errors with a truthy statusCode pass unchanged; others become 401 'Token验证失败' |
| AuthMiddleware.Authenticate | src/middlewares/auth.ts:25-52 | no token gives 401 '未提供认证token'; otherwise success iff the signature verifies, every failure being the same 401 |
| AuthMiddleware.AuthRequest.AuthenticateToken | src/middlewares/auth.ts:25-52 | `next` is called exactly once: with no argument, setting `req.user` to the payload, on success; with the error, leaving `req.user` alone, on failure |
| AuthMiddleware.BearerTokenOfHeader | src/middlewares/auth.ts:32 | "Bearer t" yields t when t has no space |
| AuthMiddleware.RevokedTokenPassesMiddleware | src/middlewares/auth.ts:40-42 | a signed token whose rows are all revoked passes the middleware, while the token-table validation rejects it |
| AuthMiddleware.VerifyFailuresCollapse | src/middlewares/auth.ts:40-50 | expired, malformed and other verification failures all give the same 401 |
| AuthController.LoginController | src/controllers/authController.ts:20-48 | accepted iff `identifier \|\| username` and the password are truthy; the identifier prefers `identifier`; otherwise 400 |
| AuthController.RefreshTokenController | src/controllers/authController.ts:53-79 | accepted iff `refresh_token \|\| token` is truthy, preferring `refresh_token`; otherwise 400 'Token不能为空' |
| AuthController.ValidateTokenController | src/controllers/authController.ts:81-105 | a missing header is status 200 / code 400; otherwise the whole header string is validated |
| AuthController.LogoutController | src/controllers/authController.ts:106-138 | a missing refresh_token is a 400 with the table unchanged; otherwise every row whose refresh token matches is revoked at `now` and the rest are kept |
| AuthController.RevokeMatchingEffect | src/controllers/authController.ts:120-128 | matching rows get revokedAt = now; other rows are untouched; only revokedAt ever changes |
| AuthController.UnknownTokenChangesNothing | src/controllers/authController.ts:120-128 | an unknown refresh token updates no row |
| AuthController.LogoutIdempotent | src/controllers/authController.ts:120-128 | a second logout revokes the same set of rows |
| AuthController.LogoutBlocksAccess | src/controllers/authController.ts:120-128 | after logout, an access token all of whose rows belong to that refresh token no longer validates |
| OssService.ExtName | src/services/ossService.ts:43 | the extension is empty or a dot followed by no further dot, and has no '/'; its value is pinned by `OssService.ExtNameOfPath` |
| OssService.ExtNameOfPath | src/services/ossService.ts:43 | for a directory prefix ending in '/' and a last segment not starting with '.', the extension is the segment's suffix from its last dot (`a/b.tar.gz` gives `.gz`) |
| OssService.StorageKeyKeepsExtension | src/services/ossService.ts:43-45 | the object key `folder/uuid+ext` has the same extension as the file name |
| OssService.ExtNameOfPlainName | src/services/ossService.ts:43 | base + extension yields that extension, and it passes the image gate iff its lower-cased form is one of the six |
| OssService.DotFileHasNoExtension | src/services/ossService.ts:43 | a dot file such as `.env` or `.png` has no extension, so it never passes the image gate |
| OssService.ImageExtensionShape | src/services/ossService.ts:71-73 | every accepted extension is a dot followed by lower-case letters |
| OssService.CaseVariantPassesGate | src/services/ossService.ts:71-73 | any letter-case variant of an accepted extension (`photo.PNG`) is the file's extension and passes the gate, which lower-cases |
| OssService.MetadataOf | src/services/ossService.ts:71-83 | a non-image extension or a failed decode leaves all four fields unset; otherwise they are the decoded width, height, format and size |
| OssService.ProcessImageMetadata | src/services/ossService.ts:152-180 | the fields are copied through, and isImage holds iff the lower-cased mime type is one of six image formats |
| OssService.UploadFile | src/services/ossService.ts:36-102 | a failed put is '文件上传失败'; otherwise the result is the unsigned URL of the key with the metadata of the file |
| OssService.UploadIsImageIff | src/services/ossService.ts:71-180 | an upload is an image iff its extension passes the gate, sharp decodes it, and the decoded format is one of the six |
| ImageService.NewImage | src/services/imageService.ts:40-52 | the inserted image row carries the upload's url, dimensions, filename, mime type and size |
| ImageService.NewItem | src/services/imageService.ts:57-67 | the feed row links the image and article, with the description and the column default sortOrder |
| ImageService.CreateImageWithTransaction | src/services/imageService.ts:33-74 | one image row is appended, and a feed row exactly when articleId is truthy, whose id is returned; other tables are unchanged; keys and relations stay valid |
| ImageService.UploadImageWithTransaction | src/services/imageService.ts:85-115 | a failed upload is '图片上传失败' with no write; a non-image returns its url with an empty id and no write; an image is inserted as above, returning the feed row's id exactly when articleId is truthy |
| ImageService.DeleteImageWithTransaction | src/services/imageService.ts:122-153 | an unknown id is '图片不存在' with no write; an image that an article's media row references fails on the required relation with no write; otherwise the image's feed rows and then the image are removed |
| ImageService.CascadeKeepsValid | src/services/imageService.ts:138-146 | removing the rows keeps the primary keys unique |
| ImageService.CreateThenDeleteRestores | src/services/imageService.ts:33-153 | deleting a freshly created image restores both tables |
| ArticleService.AuthorName | src/services/articleService.ts:48 | `name \|\| username \|\| '未知'`, never empty |
| ArticleService.ArticleMediaOrder | src/services/articleService.ts:26-34 | the same multiset as the article's media rows, sorted by sortOrder and stable on ties |
| ArticleService.ImagesInSortOrder | src/services/articleService.ts:30-32 | the images of a read come in ascending sortOrder |
| ArticleService.GetArticleById | src/services/articleService.ts:15-58 | 404 '文章不存在' iff no such article; otherwise its fields, the author name, and one image per media row in sortOrder |
| ArticleService.CountTestIff | src/services/articleService.ts:81-90 | with unique image ids, the count test passes iff the ids are distinct and all exist |
| ArticleService.CreateArticle | src/services/articleService.ts:63-134 | unknown author is 404, a failed image count 400, both with no write; otherwise the article and one media row per id, with sortOrder = its index, are appended, and the summary is returned |
| ArticleService.CreateThenRead | src/services/articleService.ts:15-134 | reading a new article gives its author name and its images in the order of imageIds |
| UserService.MaskLeavesNoFourDigits | src/services/userService.ts:68 | no four digits in a row survive the mask |
| UserService.MaskIdentity | src/services/userService.ts:68 | a string without four digits in a row is unchanged |
| UserService.MaskIdempotent | src/services/userService.ts:68 | masking twice is masking once |
| UserService.ElevenDigitPhone | src/services/userService.ts:68 | an 11-digit phone becomes '*' plus its last three digits |
| UserService.MaskedPhone | src/services/userService.ts:68 | no phone gives ''; otherwise the mask of the phone, with no four digits in a row |
| UserService.RoleOf | src/services/userService.ts:64-67 | a role keeps its name and lists its permission codes in order |
| UserService.GetUserInfo | src/services/userService.ts:37-80 | 404 '用户不存在' iff the id is unknown; otherwise the name, avatar and bio fallbacks, the role projection and the masked phone |
| UserService.GetRealPhone | src/services/userService.ts:81-101 | 403 iff the requester is neither admin nor the target; otherwise the stored phone, or '' |
| UserService.RealPhoneMasksToInfo | src/services/userService.ts:68-100 | the masked own real phone is the phone of the profile |
| WaterfallService.CeilDiv | src/services/waterfallService.ts:69 | the least number of pages of pageSize that hold total |
| WaterfallService.FormatItem | src/services/waterfallService.ts:57-66 | the feed fields are copied; url '' and width/height 0 when the image is missing or its values are falsy |
| WaterfallService.PageRows | src/services/waterfallService.ts:39-66 | the page is the window of the feed order starting at (page-1)*pageSize, at most pageSize long, formatted row by row |
| WaterfallService.GetWaterfallItems | src/services/waterfallService.ts:29-78 | page and pageSize default to 1 and 20; total is the row count; totalPages is its ceiling over pageSize; items is that page |
| WaterfallService.PageInFeedOrder | src/services/waterfallService.ts:45-48 | the rows of a page are in ascending sortOrder, newest first within equal sortOrder |
| WaterfallService.RowOnItsPage | src/services/waterfallService.ts:39-69 | feed row n appears on page n/pageSize+1 at position n%pageSize, and that page is within totalPages |
| WaterfallService.MissingImageDefaults | src/services/waterfallService.ts:59-65 | a feed row without an image shows url '' and size 0x0 |
| WaterfallService.TotalIndependentOfPage | src/services/waterfallService.ts:53-69 | total and totalPages do not depend on the page asked for |
| DataConsistency.ExtractFileKeyFromUrl | src/utils/dataConsistency.ts:177-185 | no key iff the URL does not parse; otherwise the pathname without its leading character |
| DataConsistency.MissingInOss | src/utils/dataConsistency.ts:62-82 | at most one id per image |
| DataConsistency.MissingInOssMembers | src/utils/dataConsistency.ts:62-82 | an id is reported iff some image with it has no usable key or its object is absent |
| DataConsistency.MissingInOssDistinct | src/utils/dataConsistency.ts:62-82 | with unique image ids, no id is reported twice |
| DataConsistency.RecentKeys | src/utils/dataConsistency.ts:86 | `slice(-100)`: the last min(n,100) keys |
| DataConsistency.MissingInDatabaseIff | src/utils/dataConsistency.ts:87-104 | a key is reported iff it was listed and no image row has the URL rebuilt from it |
| DataConsistency.OldKeysIgnored | src/utils/dataConsistency.ts:86-104 | a key outside the last 100 listed is never reported |
| DataConsistency.ListFrom | src/utils/dataConsistency.ts:39-59 | a finished listing holds only non-empty keys |
| DataConsistency.ListAllKeys | src/utils/dataConsistency.ts:39-59 | the do-while returns the keys of every page up to the one without a marker, or fails if a call throws |
| DataConsistency.CheckImageConsistency | src/utils/dataConsistency.ts:19-111 | a listing failure is '数据一致性检查失败'; otherwise the two missing lists, and totalChecked counts the images plus the recent keys |
| DataConsistency.WithoutImages | src/utils/dataConsistency.ts:131-148 | exactly the images whose id is not in the list |
| DataConsistency.WithoutItemsOfAll | src/utils/dataConsistency.ts:131-148 | exactly the feed rows whose image is not in the list |
| DataConsistency.DeleteImageRows | src/utils/dataConsistency.ts:133-146 | deletes iff no media row references the image; then its feed rows and the image are removed and nothing else changes; otherwise nothing changes |
| DataConsistency.FixImageConsistency | src/utils/dataConsistency.ts:119-170 | check failure is '数据一致性修复失败' with no write; otherwise the missing images are deleted in order, with their feed rows, up to the first one a media row references; the count is reported iff there is none, else '数据一致性修复失败' with the earlier deletes kept |
| DataConsistency.FixLeavesNothingMissing | src/utils/dataConsistency.ts:119-170 | after a fix that deletes every missing image, no image of the table is missing from storage |
| DataConsistency.FirstInUse | src/utils/dataConsistency.ts:131-148 | the index of the first missing image that a media row references, or the count if none is; every earlier one is unreferenced |
| DataConsistency.FixSucceedsOnlyWhenUnused | src/utils/dataConsistency.ts:131-148 | when the fix reports success, no media row referenced any deleted image |
| Ordering.SortBy | src/services/waterfallService.ts:45-48 | same length and same multiset of rows |
| Ordering.SortBySorted | src/services/waterfallService.ts:45-48 | the result is ordered by the key |
| Ordering.SortByOfSorted | src/services/articleService.ts:30-32 | an ordered sequence is left unchanged |
| Ordering.SortBySameElements | src/services/articleService.ts:30-32 | the result has exactly the input's elements |
| Permissions.Entry | prisma/seed_permissions.js:40-50 | entry code `category.action`, title-based name and description, active |
| Permissions.Row | prisma/seed_permissions.js:39-51 | one entry per action of a category, in order |
| Permissions.GenerateFrom | prisma/seed_permissions.js:35-55 | the nested loop builds the category x action cross product, category-major |
| Permissions.GeneratePermissions | prisma/seed_permissions.js:35-55 | the catalogue is the cross product of the six categories and eleven actions |
| Permissions.CrossLength | prisma/seed_permissions.js:35-55 | the cross product has |categories| x |actions| entries |
| Permissions.CrossMembers | prisma/seed_permissions.js:35-55 | every entry is the entry of some category and action |
| Permissions.CodeInjective | prisma/seed_permissions.js:40 | with dot-free category keys, the code determines the category and action |
| Permissions.CrossCodesDistinct | prisma/seed_permissions.js:35-55 | distinct dot-free category keys and distinct action keys give distinct codes |
| Permissions.AllPermissionsShape | prisma/seed_permissions.js:5-55 | the catalogue has 66 entries, all active, with distinct codes |
| Permissions.CheckImpliesCategory | prisma/seed_permissions.js:58-68 | holding `category.action` implies holding some permission of the category |
| Permissions.CategoryIffSomeAction | prisma/seed_permissions.js:58-68 | holding some permission of a category is having a code that starts with `category.` |
| Permissions.DemoAnswers | prisma/seed_permissions.js:89-101 | the demo's permission checks give the answers it prints |
| Permissions.FilterMembers | prisma/seed_permissions.js:71-83 | a role filter keeps exactly the entries whose category and action pass |
| Permissions.FilterCross | prisma/seed_permissions.js:71-83 | filtering the cross product is the cross product of the filtered keys |
| Permissions.ContentEditorShape | prisma/seed_permissions.js:71-83 | 内容编辑 (content editor) holds every action on article and news: 22 entries |
| Permissions.VipUserShape | prisma/seed_permissions.js:71-83 | VIP用户 holds every action on vip: 11 entries |
| Permissions.NormalUserShape | prisma/seed_permissions.js:71-83 | 普通用户 (normal user) holds the article entries for create and read |
| Permissions.NormalUserCodes | prisma/seed_permissions.js:71-83 | those are 'article.create' and 'article.read' |
| Permissions.RolesWithinSuperAdmin | prisma/seed_permissions.js:71-83 | the content-editor and VIP presets lie within the full catalogue of 超级管理员 (super administrator), and the normal user's within the content editor's |

## Left out

- **I/O and libraries.** Calls to COS, sharp, jsonwebtoken, `new URL`, `uuid`, the clock and the logger are opaque: they are parameters, and only the answers the code branches on are modelled. No network, file or time behaviour is modelled.
- **Database.** Prisma errors and transaction rollbacks caused by the database itself are not modelled, with one exception. Deleting an image that a media row references fails and changes nothing. This follows Prisma's default referential action for a required relation (Restrict). The Prisma schema is not part of this model, so the model assumes no cascade is configured; the service deleting feed rows by hand suggests the same. The error is `ImageService.RestrictViolation`; Prisma's P2003 message text is not modelled. `Schema.Database.Valid` holds four relations, and every method that writes the store keeps them: article to author, media row to article, media row to image, and feed row to image. The feed row's article key is not modelled.
- **Ids from Prisma.** Generated ids and `now()` are arguments. The methods require the ids to be unused, which the database would guarantee.
- **Concurrency.** Transactions are atomic changes of one `Database` value. Concurrent requests and `Promise.all` ordering are not modelled.
- **Row order.** `orderBy` is a stable sort. Rows that tie on every key keep table order, which the database does not promise. `createdAt` is an integer timestamp.
- **Unmodelled operations.** `getImageById` (imageService.ts:160-167), `getFileDownloadUrl` (ossService.ts:110-128) and `deleteFile` (ossService.ts:134-145) are thin pass-throughs. Modelling them would only restate the COS or Prisma call.
- **Outside this model.** `loginUser` and `refreshUserToken`, which the controllers call, are not part of this model. Login and refresh end at the credentials or token they would be passed.
- **Seed output.** The console output of the seed script and the "new permissions" demonstration after line 101 of prisma/seed_permissions.js are left out. `DemoAnswers` covers the checks it prints.
- `WaterfallService.GetWaterfallItems`: requires page and pageSize >= 1. What Prisma does with the negative skip or take that zero or negative values would produce is outside the model.
- `ArticleService.GetArticleById`: requires that the article's author and every media image exist. `Schema.Database.Valid` holds both relations, and every method that writes the store keeps it.
- `DataConsistency.ListAllKeys`: termination of the NextMarker loop is a ghost page bound, `pages`. The same bound is used by `CheckImageConsistency` and `FixImageConsistency`. A listing that never ends is outside the model.
- `DataConsistency.FixImageConsistency`: imports nothing. The source always reports importedToDatabase as 0, and the model does the same.
- `TokenService.ValidateAccessToken`: `Jwt.TokenPayload.userId` is always present. A payload without it, for which Prisma would drop the `userId` filter and match on the token alone, is not modelled. Every token the service issues carries a userId.
- `ImageService.CreateImageWithTransaction`: the feed row's `articleId` is not checked against the article table. If the schema declares that relation, Prisma would refuse an unknown id and roll back the image as well; the model appends the row.
- `OssService.ExtName`: models `path.extname` with POSIX separators only.
- `AuthController.ValidateTokenController`: follows the code. Check-token validates the whole `Authorization` header, `Bearer ` prefix included, whereas the middleware splits it.
- `UserService.ElevenDigitPhone`: follows the code, not its comment. The comment speaks of hiding the middle four digits. The regex `/\d{4,8}/g` instead turns an 11-digit number into one '*' followed by its last three digits.

## Findings

| source | as written | input that shows it | evidently intended | confidence | as-written member | corrected member |
|---|---|---|---|---|---|---|
| src/utils/jwt.ts:82-83 | the rest-spread removes only `type` and `expiresIn`, so the decoded `exp` and `iat` claims reach `jwt.sign` together with the `expiresIn: '15m'` option, which jsonwebtoken refuses | any valid refresh token: jwt.verify returns its `exp` claim | the comment says the expiry fields are removed; strip `exp` and `iat` before signing | not executed | Jwt.RefreshAsWrittenAlwaysFails | Jwt.RefreshSucceedsForRefreshTokens |
