/** The permission catalogue of prisma/seed_permissions.js: every
    (category, action) pair as one permission, the exact-code and
    category-prefix checks, and the four role presets. */
module Permissions {
  import opened Js
  import opened Schema

  /** An object entry `key: label`. */
  datatype Named = Named(key: string, title: string)

  const Actions: seq<Named> := [
    Named("create", "创建"), Named("read", "查看"), Named("edit", "编辑"), Named("delete", "删除"),
    Named("publish", "发布"), Named("approve", "审核"), Named("ban", "封禁"), Named("verify", "认证"),
    Named("config", "配置"), Named("backup", "备份"), Named("monitor", "监控")]

  const Categories: seq<Named> := [
    Named("article", "文章管理"), Named("news", "新闻管理"), Named("user", "用户管理"),
    Named("system", "系统管理"), Named("vip", "VIP权益"), Named("finance", "财务管理")]

  datatype PermissionEntry = PermissionEntry(
    name: string,
    description: string,
    category: string,
    action: string,
    code: string,
    isActive: bool)

  /** `category.action`. */
  function Code(category: string, action: string): string {
    category + "." + action
  }

  /** The object pushed for one pair. */
  function Entry(c: Named, a: Named): (e: PermissionEntry)
    ensures e.category == c.key && e.action == a.key && e.code == Code(c.key, a.key) && e.isActive
  {
    PermissionEntry(a.title + c.title, a.title + "相关" + c.title + "的权限", c.key, a.key, Code(c.key, a.key), true)
  }

  /** The entries of one category, in action order. */
  function Row(c: Named, acts: seq<Named>): (r: seq<PermissionEntry>)
    ensures |r| == |acts|
    ensures forall j :: 0 <= j < |r| ==> r[j] == Entry(c, acts[j])
    decreases |acts|
  {
    if acts == [] then [] else Row(c, acts[..|acts| - 1]) + [Entry(c, acts[|acts| - 1])]
  }

  /** The cross product in category-major order. */
  function Cross(cats: seq<Named>, acts: seq<Named>): seq<PermissionEntry>
    decreases |cats|
  {
    if cats == [] then [] else Cross(cats[..|cats| - 1], acts) + Row(cats[|cats| - 1], acts)
  }

  /** What `generatePermissions()` returns. */
  function AllPermissions(): seq<PermissionEntry> {
    Cross(Categories, Actions)
  }

  /** The two nested `for ... of` loops of `generatePermissions`, pushing
      one entry per pair onto an initially empty array. */
  method GenerateFrom(cats: seq<Named>, acts: seq<Named>) returns (permissions: seq<PermissionEntry>)
    ensures permissions == Cross(cats, acts)
  {
    permissions := [];
    for i := 0 to |cats|
      invariant permissions == Cross(cats[..i], acts)
    {
      var category := cats[i];
      for j := 0 to |acts|
        invariant permissions == Cross(cats[..i], acts) + Row(category, acts[..j])
      {
        RowSnoc(category, acts, j);
        permissions := permissions + [Entry(category, acts[j])];
      }
      CrossSnoc(cats, acts, i);
    }
    assert cats[..|cats|] == cats;
  }

  /** One more action extends the row by its entry. */
  lemma RowSnoc(c: Named, acts: seq<Named>, j: int)
    requires 0 <= j < |acts|
    ensures Row(c, acts[..j + 1]) == Row(c, acts[..j]) + [Entry(c, acts[j])]
  {
    assert acts[..j + 1][..j] == acts[..j];
  }

  /** One more category extends the product by its full row. */
  lemma CrossSnoc(cats: seq<Named>, acts: seq<Named>, i: int)
    requires 0 <= i < |cats|
    ensures Cross(cats[..i + 1], acts) == Cross(cats[..i], acts) + Row(cats[i], acts[..|acts|])
  {
    assert cats[..i + 1][..i] == cats[..i];
    assert acts[..|acts|] == acts;
  }

  /** `generatePermissions()` over the seeded categories and actions. */
  method GeneratePermissions() returns (permissions: seq<PermissionEntry>)
    ensures permissions == AllPermissions()
  {
    permissions := GenerateFrom(Categories, Actions);
  }

  lemma {:induction false} CrossLength(cats: seq<Named>, acts: seq<Named>)
    ensures |Cross(cats, acts)| == |cats| * |acts|
    decreases |cats|
  {
    if cats != [] {
      CrossLength(cats[..|cats| - 1], acts);
      assert (|cats| - 1) * |acts| + |acts| == |cats| * |acts|;
    }
  }

  /** Every entry of the product comes from one of its categories and one of
      its actions. */
  lemma {:induction false} CrossMembers(cats: seq<Named>, acts: seq<Named>, e: PermissionEntry)
    requires e in Cross(cats, acts)
    ensures exists i, j :: 0 <= i < |cats| && 0 <= j < |acts| && e == Entry(cats[i], acts[j])
    decreases |cats|
  {
    var init := cats[..|cats| - 1];
    var last := cats[|cats| - 1];
    if e in Cross(init, acts) {
      CrossMembers(init, acts, e);
      var i, j :| 0 <= i < |init| && 0 <= j < |acts| && e == Entry(init[i], acts[j]);
      assert cats[i] == init[i];
    } else {
      var row := Row(last, acts);
      var j :| 0 <= j < |row| && row[j] == e;
      assert e == Entry(cats[|cats| - 1], acts[j]);
    }
  }

  /** The category's characters, then the dot. */
  lemma CodeChars(c: string, a: string)
    requires '.' !in c
    ensures forall i :: 0 <= i < |c| ==> Code(c, a)[i] == c[i] != '.'
    ensures Code(c, a)[|c|] == '.'
  {
  }

  /** A code splits back into its category and action when categories hold
      no '.'. */
  lemma CodeInjective(c1: string, a1: string, c2: string, a2: string)
    requires '.' !in c1 && '.' !in c2
    requires Code(c1, a1) == Code(c2, a2)
    ensures c1 == c2 && a1 == a2
  {
    var s := Code(c1, a1);
    CodeChars(c1, a1);
    CodeChars(c2, a2);
    assert c1 == s[..|c1|] == c2;
    assert a1 == s[|c1| + 1..] == a2;
  }

  ghost predicate DistinctKeys(ns: seq<Named>) {
    forall i, j :: 0 <= i < j < |ns| ==> ns[i].key != ns[j].key
  }

  ghost predicate DistinctCodes(ps: seq<PermissionEntry>) {
    forall i, j :: 0 <= i < j < |ps| ==> ps[i].code != ps[j].code
  }

  lemma RowCodesDistinct(c: Named, acts: seq<Named>)
    requires '.' !in c.key && DistinctKeys(acts)
    ensures DistinctCodes(Row(c, acts))
  {
    var r := Row(c, acts);
    forall i, j | 0 <= i < j < |r| ensures r[i].code != r[j].code {
      if r[i].code == r[j].code {
        CodeInjective(c.key, acts[i].key, c.key, acts[j].key);
      }
    }
  }

  /** No code of `a` is a code of `b`. */
  ghost predicate CodesApart(a: seq<PermissionEntry>, b: seq<PermissionEntry>) {
    forall x, y :: x in a && y in b ==> x.code != y.code
  }

  lemma AppendDistinctCodes(a: seq<PermissionEntry>, b: seq<PermissionEntry>)
    requires DistinctCodes(a) && DistinctCodes(b) && CodesApart(a, b)
    ensures DistinctCodes(a + b)
  {
    var all := a + b;
    forall i, j | 0 <= i < j < |all| ensures all[i].code != all[j].code {
      if j < |a| {
        assert all[i] == a[i] && all[j] == a[j];
      } else if i >= |a| {
        assert all[i] == b[i - |a|] && all[j] == b[j - |a|];
      } else {
        assert all[i] == a[i] && all[j] == b[j - |a|];
        assert a[i] in a && b[j - |a|] in b;
      }
    }
  }

  /** The row of a category whose key differs from every key in `cats`
      shares no code with their product. */
  lemma RowApartFromCross(cats: seq<Named>, last: Named, acts: seq<Named>)
    requires forall i :: 0 <= i < |cats| ==> '.' !in cats[i].key && cats[i].key != last.key
    requires '.' !in last.key
    ensures CodesApart(Cross(cats, acts), Row(last, acts))
  {
    var left := Cross(cats, acts);
    var right := Row(last, acts);
    forall x, y | x in left && y in right ensures x.code != y.code {
      var i := CrossCategory(cats, acts, x);
      var k :| 0 <= k < |right| && right[k] == y;
      assert y.category == last.key && y.code == Code(last.key, y.action);
      if x.code == y.code {
        CodeInjective(x.category, x.action, last.key, y.action);
      }
    }
  }

  /** The category of an entry of the product, as an index into `cats`. */
  lemma CrossCategory(cats: seq<Named>, acts: seq<Named>, x: PermissionEntry) returns (i: int)
    requires x in Cross(cats, acts)
    ensures 0 <= i < |cats| && x.category == cats[i].key
    ensures x.code == Code(x.category, x.action)
  {
    CrossMembers(cats, acts, x);
    var j;
    i, j :| 0 <= i < |cats| && 0 <= j < |acts| && x == Entry(cats[i], acts[j]);
  }

  /** With distinct category keys free of '.', and distinct action keys,
      the product has distinct codes. */
  lemma {:induction false} CrossCodesDistinct(cats: seq<Named>, acts: seq<Named>)
    requires DistinctKeys(cats) && DistinctKeys(acts)
    requires forall i :: 0 <= i < |cats| ==> '.' !in cats[i].key
    ensures DistinctCodes(Cross(cats, acts))
    decreases |cats|
  {
    if cats != [] {
      var init := cats[..|cats| - 1];
      var last := cats[|cats| - 1];
      assert forall i :: 0 <= i < |init| ==> init[i] == cats[i];
      assert DistinctKeys(init);
      CrossCodesDistinct(init, acts);
      RowCodesDistinct(last, acts);
      RowApartFromCross(init, last, acts);
      AppendDistinctCodes(Cross(init, acts), Row(last, acts));
    }
  }

  /** Every entry of the product is active. */
  lemma CrossActive(cats: seq<Named>, acts: seq<Named>, k: int)
    requires 0 <= k < |Cross(cats, acts)|
    ensures Cross(cats, acts)[k].isActive
  {
    CrossMembers(cats, acts, Cross(cats, acts)[k]);
  }

  lemma CategoryKeysWellFormed()
    ensures DistinctKeys(Categories)
    ensures forall i :: 0 <= i < |Categories| ==> '.' !in Categories[i].key
  {
  }

  lemma ActionKeysDistinct()
    ensures DistinctKeys(Actions)
  {
  }

  /** 6 × 11 = 66 entries, all active, with pairwise distinct codes. */
  lemma AllPermissionsShape()
    ensures |AllPermissions()| == 66
    ensures forall k :: 0 <= k < |AllPermissions()| ==> AllPermissions()[k].isActive
    ensures DistinctCodes(AllPermissions())
  {
    CrossLength(Categories, Actions);
    forall k | 0 <= k < |AllPermissions()| ensures AllPermissions()[k].isActive {
      CrossActive(Categories, Actions, k);
    }
    CategoryKeysWellFormed();
    ActionKeysDistinct();
    CrossCodesDistinct(Categories, Actions);
  }

  // ---- checks over a user's permission codes ----

  /** `checkPermission`: the exact code is among the user's codes. */
  predicate CheckPermission(userPermissions: seq<string>, category: string, action: string) {
    Code(category, action) in userPermissions
  }

  /** `hasCategoryPermission`: some code starts with `category.`. */
  predicate HasCategoryPermission(userPermissions: seq<string>, category: string) {
    exists i :: 0 <= i < |userPermissions| && StartsWith(userPermissions[i], category + ".")
  }

  /** Holding one permission of a category means holding the category. */
  lemma CheckImpliesCategory(userPermissions: seq<string>, category: string, action: string)
    requires CheckPermission(userPermissions, category, action)
    ensures HasCategoryPermission(userPermissions, category)
  {
    var i :| 0 <= i < |userPermissions| && userPermissions[i] == Code(category, action);
    assert userPermissions[i][..|category + "."|] == category + ".";
  }

  /** The category check holds exactly when some code parses as that category
      followed by some action. */
  lemma CategoryIffSomeAction(userPermissions: seq<string>, category: string)
    ensures HasCategoryPermission(userPermissions, category) <==>
            exists i :: 0 <= i < |userPermissions| && |category| < |userPermissions[i]| &&
              userPermissions[i] == Code(category, userPermissions[i][|category| + 1..])
  {
    var pre := category + ".";
    if HasCategoryPermission(userPermissions, category) {
      var i :| 0 <= i < |userPermissions| && StartsWith(userPermissions[i], pre);
      var u := userPermissions[i];
      assert u == u[..|pre|] + u[|pre|..];
    }
    if exists i :: 0 <= i < |userPermissions| && |category| < |userPermissions[i]| &&
         userPermissions[i] == Code(category, userPermissions[i][|category| + 1..]) {
      var i :| 0 <= i < |userPermissions| && |category| < |userPermissions[i]| &&
               userPermissions[i] == Code(category, userPermissions[i][|category| + 1..]);
      assert userPermissions[i][..|pre|] == pre;
    }
  }

  /** The three answers of the usage example. An action key outside the
      catalogue (`vip.large_upload`) still counts for the category. */
  lemma DemoAnswers()
    ensures var userPerms := ["article.create", "news.edit", "vip.large_upload"];
            && CheckPermission(userPerms, "article", "create")
            && !CheckPermission(userPerms, "news", "delete")
            && HasCategoryPermission(userPerms, "vip")
  {
    var userPerms := ["article.create", "news.edit", "vip.large_upload"];
    assert userPerms[0] == Code("article", "create");
    assert StartsWith(userPerms[2], "vip" + ".");
  }

  // ---- role presets ----

  /** `filter` keeping the entries whose category and action pass. */
  function FilterEntries(ps: seq<PermissionEntry>, keepCategory: string -> bool, keepAction: string -> bool)
    : seq<PermissionEntry>
  {
    if ps == [] then []
    else
      (if keepCategory(ps[0].category) && keepAction(ps[0].action) then [ps[0]] else [])
      + FilterEntries(ps[1..], keepCategory, keepAction)
  }

  /** The same filter on a key list. */
  function FilterNamed(ns: seq<Named>, keep: string -> bool): seq<Named>
  {
    if ns == [] then []
    else
      (if keep(ns[0].key) then [ns[0]] else []) + FilterNamed(ns[1..], keep)
  }

  /** The filter keeps exactly the entries that pass. */
  lemma {:induction false} FilterMembers(ps: seq<PermissionEntry>, keepCategory: string -> bool,
                                         keepAction: string -> bool, e: PermissionEntry)
    ensures e in FilterEntries(ps, keepCategory, keepAction) <==>
            e in ps && keepCategory(e.category) && keepAction(e.action)
  {
    if ps != [] {
      assert ps == [ps[0]] + ps[1..];
      FilterMembers(ps[1..], keepCategory, keepAction, e);
    }
  }

  lemma {:induction false} FilterAppend(a: seq<PermissionEntry>, b: seq<PermissionEntry>,
                                        keepCategory: string -> bool, keepAction: string -> bool)
    ensures FilterEntries(a + b, keepCategory, keepAction) ==
            FilterEntries(a, keepCategory, keepAction) + FilterEntries(b, keepCategory, keepAction)
  {
    if a == [] {
      assert a + b == b;
    } else {
      var h := if keepCategory(a[0].category) && keepAction(a[0].action) then [a[0]] else [];
      assert (a + b)[0] == a[0] && (a + b)[1..] == a[1..] + b;
      assert FilterEntries(a + b, keepCategory, keepAction) == h + FilterEntries(a[1..] + b, keepCategory, keepAction);
      assert FilterEntries(a, keepCategory, keepAction) == h + FilterEntries(a[1..], keepCategory, keepAction);
      FilterAppend(a[1..], b, keepCategory, keepAction);
    }
  }

  lemma {:induction false} FilterNamedAppend(a: seq<Named>, b: seq<Named>, keep: string -> bool)
    ensures FilterNamed(a + b, keep) == FilterNamed(a, keep) + FilterNamed(b, keep)
  {
    if a == [] {
      assert a + b == b;
    } else {
      var h := if keep(a[0].key) then [a[0]] else [];
      assert (a + b)[0] == a[0] && (a + b)[1..] == a[1..] + b;
      assert FilterNamed(a + b, keep) == h + FilterNamed(a[1..] + b, keep);
      assert FilterNamed(a, keep) == h + FilterNamed(a[1..], keep);
      FilterNamedAppend(a[1..], b, keep);
    }
  }

  /** If every key passes, the filter keeps the whole list. */
  lemma {:induction false} FilterNamedKeepsAll(ns: seq<Named>, keep: string -> bool)
    requires forall i :: 0 <= i < |ns| ==> keep(ns[i].key)
    ensures FilterNamed(ns, keep) == ns
  {
    if ns != [] {
      FilterNamedKeepsAll(ns[1..], keep);
    }
  }

  lemma RowAppend(c: Named, a: seq<Named>, b: seq<Named>)
    ensures Row(c, a + b) == Row(c, a) + Row(c, b)
  {
    var l := Row(c, a + b);
    var r := Row(c, a) + Row(c, b);
    forall j | 0 <= j < |l| ensures l[j] == r[j] {
      if j < |a| {
        assert (a + b)[j] == a[j];
      } else {
        assert (a + b)[j] == b[j - |a|];
      }
    }
  }

  lemma {:induction false} FilterRow(c: Named, acts: seq<Named>, keepCategory: string -> bool, keepAction: string -> bool)
    ensures FilterEntries(Row(c, acts), keepCategory, keepAction) ==
            if keepCategory(c.key) then Row(c, FilterNamed(acts, keepAction)) else []
  {
    if acts != [] {
      var row := Row(c, acts);
      var head: seq<Named> := if keepAction(acts[0].key) then [acts[0]] else [];
      var tail := FilterNamed(acts[1..], keepAction);
      assert row[1..] == Row(c, acts[1..]);
      assert row[0] == Entry(c, acts[0]);
      assert FilterNamed(acts, keepAction) == head + tail;
      FilterRow(c, acts[1..], keepCategory, keepAction);
      RowAppend(c, head, tail);
      assert Row(c, head) == if keepAction(acts[0].key) then [Entry(c, acts[0])] else [];
    }
  }

  /** Filtering the product by category and action is the product of the
      filtered lists, in the same order. */
  lemma {:induction false} FilterCross(cats: seq<Named>, acts: seq<Named>,
                                       keepCategory: string -> bool, keepAction: string -> bool)
    ensures FilterEntries(Cross(cats, acts), keepCategory, keepAction) ==
            Cross(FilterNamed(cats, keepCategory), FilterNamed(acts, keepAction))
    decreases |cats|
  {
    if cats != [] {
      var init := cats[..|cats| - 1];
      var last := cats[|cats| - 1];
      var kept := FilterNamed(init, keepCategory);
      var acts' := FilterNamed(acts, keepAction);
      assert FilterEntries(Cross(cats, acts), keepCategory, keepAction) ==
             Cross(kept, acts') + FilterEntries(Row(last, acts), keepCategory, keepAction) by {
        FilterAppend(Cross(init, acts), Row(last, acts), keepCategory, keepAction);
        FilterCross(init, acts, keepCategory, keepAction);
      }
      assert FilterNamed(cats, keepCategory) == kept + FilterNamed([last], keepCategory) by {
        assert cats == init + [last];
        FilterNamedAppend(init, [last], keepCategory);
      }
      FilterRow(last, acts, keepCategory, keepAction);
      assert [last][1..] == [];
      if keepCategory(last.key) {
        assert FilterNamed([last], keepCategory) == [last];
        assert (kept + [last])[..|kept|] == kept;
        assert Cross(kept + [last], acts') == Cross(kept, acts') + Row(last, acts');
      } else {
        assert FilterNamed([last], keepCategory) == [];
        assert kept + [] == kept;
      }
    }
  }

  function AnyKey(key: string): bool { true }
  function ContentCategory(key: string): bool { key == "article" || key == "news" }
  function VipCategory(key: string): bool { key == "vip" }
  function ArticleCategory(key: string): bool { key == "article" }
  function CreateOrRead(key: string): bool { key == "create" || key == "read" }

  /** 超级管理员: every permission. */
  function SuperAdminPermissions(): seq<PermissionEntry> {
    AllPermissions()
  }

  /** 内容编辑: the article and news categories. */
  function ContentEditorPermissions(): seq<PermissionEntry> {
    FilterEntries(AllPermissions(), ContentCategory, AnyKey)
  }

  /** VIP用户: the vip category. */
  function VipUserPermissions(): seq<PermissionEntry> {
    FilterEntries(AllPermissions(), VipCategory, AnyKey)
  }

  /** 普通用户: creating and reading articles. */
  function NormalUserPermissions(): seq<PermissionEntry> {
    FilterEntries(AllPermissions(), ArticleCategory, CreateOrRead)
  }

  lemma AllActionsKept()
    ensures FilterNamed(Actions, AnyKey) == Actions
  {
    FilterNamedKeepsAll(Actions, AnyKey);
  }

  lemma ContentCategories()
    ensures FilterNamed(Categories, ContentCategory) == [Categories[0], Categories[1]]
  {
  }

  lemma OnlyVipCategory()
    ensures FilterNamed(Categories, VipCategory) == [Categories[4]]
  {
  }

  lemma OnlyArticleCategory()
    ensures FilterNamed(Categories, ArticleCategory) == [Categories[0]]
  {
  }

  lemma CreateAndReadActions()
    ensures FilterNamed(Actions, CreateOrRead) == [Actions[0], Actions[1]]
  {
  }

  lemma CrossOne(x: Named, acts: seq<Named>)
    ensures Cross([x], acts) == Row(x, acts)
  {
    assert [x][..0] == [];
  }

  lemma CrossTwo(x: Named, y: Named, acts: seq<Named>)
    ensures Cross([x, y], acts) == Row(x, acts) + Row(y, acts)
  {
    assert [x, y][..1] == [x];
    CrossOne(x, acts);
  }

  /** The content editor holds the 22 article and news permissions, category by
      category in action order. */
  lemma ContentEditorShape()
    ensures ContentEditorPermissions() == Row(Categories[0], Actions) + Row(Categories[1], Actions)
    ensures |ContentEditorPermissions()| == 22
  {
    FilterCross(Categories, Actions, ContentCategory, AnyKey);
    ContentCategories();
    AllActionsKept();
    CrossTwo(Categories[0], Categories[1], Actions);
  }

  /** The VIP user holds the 11 vip permissions. */
  lemma VipUserShape()
    ensures VipUserPermissions() == Row(Categories[4], Actions)
    ensures |VipUserPermissions()| == 11
  {
    FilterCross(Categories, Actions, VipCategory, AnyKey);
    OnlyVipCategory();
    AllActionsKept();
    CrossOne(Categories[4], Actions);
  }

  /** The normal user holds exactly the article create and read permissions. */
  lemma NormalUserShape()
    ensures NormalUserPermissions() == Row(Categories[0], [Actions[0], Actions[1]])
  {
    var c, a0, a1 := Categories[0], Actions[0], Actions[1];
    assert NormalUserPermissions() ==
           Cross(FilterNamed(Categories, ArticleCategory), FilterNamed(Actions, CreateOrRead)) by {
      FilterCross(Categories, Actions, ArticleCategory, CreateOrRead);
    }
    assert FilterNamed(Categories, ArticleCategory) == [c] by {
      OnlyArticleCategory();
    }
    assert FilterNamed(Actions, CreateOrRead) == [a0, a1] by {
      CreateAndReadActions();
    }
    CrossOne(c, [a0, a1]);
  }

  /** Those two are 创建文章管理 `article.create` and 查看文章管理 `article.read`. */
  lemma NormalUserCodes()
    ensures |Row(Categories[0], [Actions[0], Actions[1]])| == 2
    ensures Row(Categories[0], [Actions[0], Actions[1]])[0].code == "article.create"
    ensures Row(Categories[0], [Actions[0], Actions[1]])[1].code == "article.read"
    ensures Row(Categories[0], [Actions[0], Actions[1]])[0].name == "创建文章管理"
    ensures Row(Categories[0], [Actions[0], Actions[1]])[1].name == "查看文章管理"
  {
    var c := Named("article", "文章管理");
    var create, read := Named("create", "创建"), Named("read", "查看");
    assert Categories[0] == c && Actions[0] == create && Actions[1] == read;
    var r := Row(c, [create, read]);
    assert r[0] == Entry(c, create) && r[1] == Entry(c, read);
    assert "article" + "." + "create" == "article.create";
    assert "article" + "." + "read" == "article.read";
    assert "创建" + "文章管理" == "创建文章管理";
    assert "查看" + "文章管理" == "查看文章管理";
  }

  /** Every narrower role is a subset of the super administrator's, and
      the normal user's of the content editor's. */
  lemma RolesWithinSuperAdmin(e: PermissionEntry)
    ensures e in ContentEditorPermissions() ==> e in SuperAdminPermissions()
    ensures e in VipUserPermissions() ==> e in SuperAdminPermissions()
    ensures e in NormalUserPermissions() ==> e in ContentEditorPermissions()
  {
    FilterMembers(AllPermissions(), ContentCategory, AnyKey, e);
    FilterMembers(AllPermissions(), VipCategory, AnyKey, e);
    FilterMembers(AllPermissions(), ArticleCategory, CreateOrRead, e);
  }
}
