/**
 * BlogRepository: the post queries (the PostQuery filter, paged listing,
 * lookup by year/month/slug, most-viewed posts, slug conflicts), the
 * in-place view-count update, and the category and tag listings with their
 * published-post counts. The store is a set of in-memory tables.
 */
module BlogRepository {
  import opened Linq
  import opened Entities

  // ---------------------------------------------------------------------
  // PostQuery and FilterPosts

  /** The query condition; a field is unset when false, not positive, or blank. */
  datatype PostQuery = PostQuery(
    publishedOnly: bool,
    notPublished: bool,
    categoryId: int,
    categorySlug: string,
    authorId: int,
    authorSlug: string,
    tagSlug: string,
    keyword: string,
    year: int,
    month: int,
    titleSlug: string)

  predicate NoConditionSet(q: PostQuery)
  {
    && !q.publishedOnly && !q.notPublished
    && q.categoryId <= 0 && IsBlank(q.categorySlug)
    && q.authorId <= 0 && IsBlank(q.authorSlug)
    && IsBlank(q.tagSlug) && IsBlank(q.keyword)
    && q.year <= 0 && q.month <= 0
    && IsBlank(q.titleSlug)
  }

  /** The keyword occurs in the title, either description, the category name or a tag name. */
  predicate MatchesKeyword(p: Post, keyword: string)
  {
    || Contains(p.title, keyword)
    || Contains(p.shortDescription, keyword)
    || Contains(p.description, keyword)
    || Contains(p.category.name, keyword)
    || exists t :: t in p.tags && Contains(t.name, keyword)
  }

  /** The condition read as one predicate: every set field holds of the post. */
  predicate Satisfies(q: PostQuery, p: Post)
  {
    && (q.publishedOnly ==> p.published)
    && (q.notPublished ==> !p.published)
    && (q.categoryId > 0 ==> p.categoryId == q.categoryId)
    && (!IsBlank(q.categorySlug) ==> p.category.urlSlug == q.categorySlug)
    && (q.authorId > 0 ==> p.authorId == q.authorId)
    && (!IsBlank(q.authorSlug) ==> p.author.urlSlug == q.authorSlug)
    && (!IsBlank(q.tagSlug) ==> exists t :: t in p.tags && t.urlSlug == q.tagSlug)
    && (!IsBlank(q.keyword) ==> MatchesKeyword(p, q.keyword))
    && (q.year > 0 ==> p.postedDate.year == q.year)
    && (q.month > 0 ==> p.postedDate.month == q.month)
    && (!IsBlank(q.titleSlug) ==> p.urlSlug == q.titleSlug)
  }

  function Matcher(q: PostQuery): Post -> bool
  {
    (p: Post) => Satisfies(q, p)
  }

  /**
   * The repository's conditional filters, numbered 1 .. FilterCount in the
   * order it applies them: whether filter `n` is set by the query ...
   */
  const FilterCount := 11

  predicate IsSet(q: PostQuery, n: nat)
  {
    match n
    case 1 => q.publishedOnly
    case 2 => q.notPublished
    case 3 => q.categoryId > 0
    case 4 => !IsBlank(q.categorySlug)
    case 5 => q.authorId > 0
    case 6 => !IsBlank(q.authorSlug)
    case 7 => !IsBlank(q.tagSlug)
    case 8 => !IsBlank(q.keyword)
    case 9 => q.year > 0
    case 10 => q.month > 0
    case 11 => !IsBlank(q.titleSlug)
    case _ => false
  }

  /** ... and which posts it keeps. */
  function Keep(q: PostQuery, n: nat): Post -> bool
  {
    match n
    case 1 => (x: Post) => x.published
    case 2 => (x: Post) => !x.published
    case 3 => (x: Post) => x.categoryId == q.categoryId
    case 4 => (x: Post) => x.category.urlSlug == q.categorySlug
    case 5 => (x: Post) => x.authorId == q.authorId
    case 6 => (x: Post) => x.author.urlSlug == q.authorSlug
    case 7 => (x: Post) => Any(x.tags, (t: Tag) => t.urlSlug == q.tagSlug)
    case 8 => (x: Post) =>
      || Contains(x.title, q.keyword)
      || Contains(x.shortDescription, q.keyword)
      || Contains(x.description, q.keyword)
      || Contains(x.category.name, q.keyword)
      || Any(x.tags, (t: Tag) => Contains(t.name, q.keyword))
    case 9 => (x: Post) => x.postedDate.year == q.year
    case 10 => (x: Post) => x.postedDate.month == q.month
    case 11 => (x: Post) => x.urlSlug == q.titleSlug
    case _ => (x: Post) => true
  }

  /** The query after its first `n` filters: each reassigns the query with one more Where when set. */
  function FilterFirst(posts: seq<Post>, q: PostQuery, n: nat): seq<Post>
  {
    if n == 0 then posts else WhereIf(FilterFirst(posts, q, n - 1), IsSet(q, n), Keep(q, n))
  }

  /** `FilterPosts`: the query with all of its conditional filters applied. */
  function FilterPosts(posts: seq<Post>, q: PostQuery): seq<Post>
  {
    FilterFirst(posts, q, FilterCount)
  }

  /** The post passes each of the first `n` filters that is set. */
  predicate PassesFirst(q: PostQuery, n: nat, x: Post)
  {
    forall i :: 1 <= i <= n ==> IsSet(q, i) ==> Keep(q, i)(x)
  }

  function PassesFirstOf(q: PostQuery, n: nat): Post -> bool
  {
    (x: Post) => PassesFirst(q, n, x)
  }

  /** Passing the first `n` filters is passing the first `n - 1` and, when it is set, the `n`-th. */
  lemma PassesFirstStep(q: PostQuery, n: nat, x: Post)
    requires n >= 1
    ensures PassesFirstOf(q, n)(x) == (PassesFirstOf(q, n - 1)(x) && (IsSet(q, n) ==> Keep(q, n)(x)))
  {
    if PassesFirst(q, n - 1, x) && (IsSet(q, n) ==> Keep(q, n)(x)) {
      forall i | 1 <= i <= n && IsSet(q, i) ensures Keep(q, i)(x) {
        if i < n {
          assert 1 <= i <= n - 1;
        }
      }
    }
  }

  lemma {:induction false} FilterFirstIsWhere(posts: seq<Post>, q: PostQuery, n: nat)
    ensures FilterFirst(posts, q, n) == Where(posts, PassesFirstOf(q, n))
  {
    if n == 0 {
      WhereKeepsAll(posts, PassesFirstOf(q, 0));
    } else {
      FilterFirstIsWhere(posts, q, n - 1);
      forall x | x in posts
        ensures PassesFirstOf(q, n)(x) == (PassesFirstOf(q, n - 1)(x) && (IsSet(q, n) ==> Keep(q, n)(x)))
      {
        PassesFirstStep(q, n, x);
      }
      if IsSet(q, n) {
        WhereWhere(posts, PassesFirstOf(q, n - 1), Keep(q, n), PassesFirstOf(q, n));
      } else {
        WhereCongruence(posts, PassesFirstOf(q, n - 1), PassesFirstOf(q, n));
      }
    }
  }

  lemma PassesAllSatisfies(q: PostQuery, x: Post)
    requires PassesFirst(q, FilterCount, x)
    ensures Satisfies(q, x)
  {
    assert IsSet(q, 1) ==> Keep(q, 1)(x);
    assert IsSet(q, 2) ==> Keep(q, 2)(x);
    assert IsSet(q, 3) ==> Keep(q, 3)(x);
    assert IsSet(q, 4) ==> Keep(q, 4)(x);
    assert IsSet(q, 5) ==> Keep(q, 5)(x);
    assert IsSet(q, 6) ==> Keep(q, 6)(x);
    assert IsSet(q, 7) ==> Keep(q, 7)(x);
    assert IsSet(q, 8) ==> Keep(q, 8)(x);
    assert IsSet(q, 9) ==> Keep(q, 9)(x);
    assert IsSet(q, 10) ==> Keep(q, 10)(x);
    assert IsSet(q, 11) ==> Keep(q, 11)(x);
  }

  lemma SatisfiesPassesAll(q: PostQuery, x: Post)
    requires Satisfies(q, x)
    ensures PassesFirst(q, FilterCount, x)
  {
    forall i | 1 <= i <= FilterCount && IsSet(q, i) ensures Keep(q, i)(x) {
    }
  }

  /** Passing all the filters is satisfying the condition. */
  lemma PassesAllIsSatisfies(q: PostQuery, x: Post)
    ensures PassesFirst(q, FilterCount, x) <==> Satisfies(q, x)
  {
    if PassesFirst(q, FilterCount, x) {
      PassesAllSatisfies(q, x);
    }
    if Satisfies(q, x) {
      SatisfiesPassesAll(q, x);
    }
  }

  /**
   * The chain of conditional filters is one filter by the conjunction of the
   * set fields: same rows, same order.
   */
  lemma FilterPostsIsConjunction(posts: seq<Post>, q: PostQuery)
    ensures FilterPosts(posts, q) == Where(posts, Matcher(q))
  {
    FilterFirstIsWhere(posts, q, FilterCount);
    forall x | x in posts ensures PassesFirstOf(q, FilterCount)(x) == Matcher(q)(x) {
      PassesAllIsSatisfies(q, x);
    }
    WhereCongruence(posts, PassesFirstOf(q, FilterCount), Matcher(q));
  }

  /** A post is in the result iff it is stored and every set field holds of it. */
  lemma FilterPostsMembers(posts: seq<Post>, q: PostQuery)
    ensures forall p :: p in FilterPosts(posts, q) <==> p in posts && Satisfies(q, p)
  {
    FilterPostsIsConjunction(posts, q);
  }

  /** With every field unset, the query returns every post. */
  lemma FilterPostsNoCondition(posts: seq<Post>, q: PostQuery)
    requires NoConditionSet(q)
    ensures FilterPosts(posts, q) == posts
  {
    FilterPostsIsConjunction(posts, q);
    WhereKeepsAll(posts, Matcher(q));
  }

  /** PublishedOnly together with NotPublished selects nothing. */
  lemma FilterPostsContradictory(posts: seq<Post>, q: PostQuery)
    requires q.publishedOnly && q.notPublished
    ensures FilterPosts(posts, q) == []
  {
    FilterPostsIsConjunction(posts, q);
    WhereKeepsNone(posts, Matcher(q));
  }

  /** A non-blank keyword alone keeps exactly the posts it occurs in, in any of the five places. */
  lemma FilterPostsByKeyword(posts: seq<Post>, keyword: string, p: Post)
    requires !IsBlank(keyword)
    ensures p in FilterPosts(posts, PostQuery(false, false, 0, "", 0, "", "", keyword, 0, 0, "")) <==>
      p in posts &&
      (Contains(p.title, keyword) || Contains(p.shortDescription, keyword) || Contains(p.description, keyword) ||
       Contains(p.category.name, keyword) || exists t :: t in p.tags && Contains(t.name, keyword))
  {
    FilterPostsMembers(posts, PostQuery(false, false, 0, "", 0, "", "", keyword, 0, 0, ""));
  }

  // ---------------------------------------------------------------------
  // GetPagedPostsAsync: the filter, newest first, one page of it

  predicate PostedLater(a: Post, b: Post)
  {
    DateLe(b.postedDate, a.postedDate)
  }

  lemma NewestFirstIsTotal()
    ensures TotalPreorder(PostedLater)
  {
  }

  function PostsNewestFirst(posts: seq<Post>, q: PostQuery): seq<Post>
  {
    OrderBy(FilterPosts(posts, q), PostedLater)
  }

  lemma PostsNewestFirstSorted(posts: seq<Post>, q: PostQuery)
    ensures SortedBy(PostsNewestFirst(posts, q), PostedLater)
  {
    NewestFirstIsTotal();
    OrderBySorted(FilterPosts(posts, q), PostedLater);
  }

  function GetPagedPosts(posts: seq<Post>, q: PostQuery, pageNumber: int, pageSize: int): (r: PagedList<Post>)
    requires pageNumber >= 1 && pageSize > 0
    ensures r.totalItemCount == |FilterPosts(posts, q)|
    ensures |r.items| <= pageSize
    ensures forall p :: p in r.items ==> p in posts && Satisfies(q, p)
    ensures forall i, j :: 0 <= i < j < |r.items| ==> DateLe(r.items[j].postedDate, r.items[i].postedDate)
    ensures var sorted := PostsNewestFirst(posts, q);
      r.items == sorted[PageStart(|sorted|, pageNumber, pageSize)..PageEnd(|sorted|, pageNumber, pageSize)]
  {
    var sorted := PostsNewestFirst(posts, q);
    PostsNewestFirstSorted(posts, q);
    PageOfSorted(sorted, pageNumber, pageSize, PostedLater);
    FilterPostsMembers(posts, q);
    var r := ToPagedList(sorted, pageNumber, pageSize);
    assert forall p :: p in r.items ==> p in multiset(sorted);
    r
  }

  /**
   * With no condition, of two posts the one stamped later comes first,
   * however small the difference: two posts from the same second that
   * differ only in their ticks are ordered by the ticks.
   */
  lemma LaterPostFirst(a: Post, b: Post, q: PostQuery)
    requires NoConditionSet(q)
    requires !DateLe(b.postedDate, a.postedDate)
    ensures GetPagedPosts([a, b], q, 1, 1).items == [b]
  {
    FilterPostsNoCondition([a, b], q);
    var sorted := PostsNewestFirst([a, b], q);
    PostsNewestFirstSorted([a, b], q);
    assert multiset(sorted) == multiset([a, b]);
    assert sorted == [sorted[0], sorted[1]];
    assert PostedLater(sorted[0], sorted[1]);
    assert sorted[0] in multiset([a, b]);
    assert sorted[0] != a;
  }

  // ---------------------------------------------------------------------
  // GetPostAsync(year, month, slug)

  /** Each argument constrains the post only when it is set. */
  predicate PostedAs(p: Post, year: int, month: int, slug: string)
  {
    && (year > 0 ==> p.postedDate.year == year)
    && (month > 0 ==> p.postedDate.month == month)
    && (!IsBlank(slug) ==> p.urlSlug == slug)
  }

  function GetPost(posts: seq<Post>, year: int, month: int, slug: string): (r: Option<Post>)
    ensures r.Some? ==> r.value in posts && PostedAs(r.value, year, month, slug)
    ensures r.None? <==> forall p :: p in posts ==> !PostedAs(p, year, month, slug)
  {
    var s1 := WhereIf(posts, year > 0, (x: Post) => x.postedDate.year == year);
    var s2 := WhereIf(s1, month > 0, (x: Post) => x.postedDate.month == month);
    var s3 := WhereIf(s2, !IsBlank(slug), (x: Post) => x.urlSlug == slug);
    assert s3 != [] ==> s3[0] in s3;
    FirstOrDefault(s3)
  }

  // ---------------------------------------------------------------------
  // GetPopularArticlesAsync

  predicate MoreViewed(a: Post, b: Post)
  {
    a.viewCount >= b.viewCount
  }

  lemma MoreViewedIsTotal()
    ensures TotalPreorder(MoreViewed)
  {
  }

  lemma MostViewedFirstSorted(posts: seq<Post>)
    ensures SortedBy(OrderBy(posts, MoreViewed), MoreViewed)
  {
    MoreViewedIsTotal();
    OrderBySorted(posts, MoreViewed);
  }

  /** `GetPopularArticlesAsync`: the posts by ViewCount descending, the first `numPosts` of them. */
  function GetPopularArticles(posts: seq<Post>, numPosts: int): seq<Post>
  {
    Take(OrderBy(posts, MoreViewed), numPosts)
  }

  /**
   * At most `numPosts` posts (all of them when there are fewer), drawn from
   * the table, most viewed first, and no post left out has more views than
   * one returned.
   */
  lemma GetPopularArticlesIsTop(posts: seq<Post>, numPosts: int)
    ensures var r := GetPopularArticles(posts, numPosts);
      && |r| == (if numPosts <= 0 then 0 else Min(numPosts, |posts|))
      && multiset(r) <= multiset(posts)
      && (forall i, j :: 0 <= i < j < |r| ==> r[i].viewCount >= r[j].viewCount)
      && (forall x, y :: x in multiset(posts) - multiset(r) && y in r ==> x.viewCount <= y.viewCount)
  {
    MostViewedFirstSorted(posts);
    TakeOfOrdered(posts, MoreViewed, numPosts);
    var r := GetPopularArticles(posts, numPosts);
    forall x, y | x in multiset(posts) - multiset(r) && y in r ensures x.viewCount <= y.viewCount {
      assert MoreViewed(y, x);
    }
    forall i, j | 0 <= i < j < |r| ensures r[i].viewCount >= r[j].viewCount {
      assert MoreViewed(r[i], r[j]);
    }
  }

  // ---------------------------------------------------------------------
  // IsPostSlugExistedAsync

  /** Some other post (a different Id) already uses the slug. */
  function IsPostSlugExisted(posts: seq<Post>, postId: int, slug: string): (r: bool)
    ensures r <==> exists p :: p in posts && p.id != postId && p.urlSlug == slug
  {
    Any(posts, (x: Post) => x.id != postId && x.urlSlug == slug)
  }

  ghost predicate UniqueSlugs(posts: seq<Post>)
  {
    forall i, j :: 0 <= i < j < |posts| ==> posts[i].urlSlug != posts[j].urlSlug
  }

  ghost predicate UniqueIds(posts: seq<Post>)
  {
    forall i, j :: 0 <= i < j < |posts| ==> posts[i].id != posts[j].id
  }

  /** A stored post that keeps its own slug is never in conflict. */
  lemma OwnSlugIsNoConflict(posts: seq<Post>, p: Post)
    requires UniqueSlugs(posts) && p in posts
    ensures !IsPostSlugExisted(posts, p.id, p.urlSlug)
  {
  }

  /** The table after saving `p` over the stored post with the same Id. */
  function ReplacePost(posts: seq<Post>, p: Post): seq<Post>
  {
    Select(posts, (x: Post) => if x.id == p.id then p else x)
  }

  /** A new post that passes the slug check keeps the slugs unique. */
  lemma InsertAfterSlugCheck(posts: seq<Post>, p: Post)
    requires UniqueSlugs(posts)
    requires forall x :: x in posts ==> x.id != p.id
    requires !IsPostSlugExisted(posts, p.id, p.urlSlug)
    ensures UniqueSlugs(posts + [p])
  {
    var s := posts + [p];
    forall i, j | 0 <= i < j < |s| ensures s[i].urlSlug != s[j].urlSlug {
      if j == |posts| {
        assert s[i] in posts;
      }
    }
  }

  /** An edited post that passes the slug check keeps the slugs unique. */
  lemma UpdateAfterSlugCheck(posts: seq<Post>, p: Post)
    requires UniqueSlugs(posts) && UniqueIds(posts)
    requires !IsPostSlugExisted(posts, p.id, p.urlSlug)
    ensures UniqueSlugs(ReplacePost(posts, p))
  {
    var s := ReplacePost(posts, p);
    forall i, j | 0 <= i < j < |s| ensures s[i].urlSlug != s[j].urlSlug {
      assert posts[i] in posts && posts[j] in posts;
    }
  }

  // ---------------------------------------------------------------------
  // IncreaseViewCountAsync

  function AddView(postId: int): Post -> Post
  {
    (p: Post) => if p.id == postId then p.(viewCount := p.viewCount + 1) else p
  }

  /** The table after `UPDATE Posts SET ViewCount = ViewCount + 1 WHERE Id = postId`. */
  function ViewCountIncreased(posts: seq<Post>, postId: int): seq<Post>
  {
    Select(posts, AddView(postId))
  }

  function TotalViews(posts: seq<Post>): int
  {
    if posts == [] then 0 else posts[0].viewCount + TotalViews(posts[1..])
  }

  /** The total of all view counts grows by the number of rows with that Id. */
  lemma {:induction false} ViewCountIncreasedTotal(posts: seq<Post>, postId: int)
    ensures TotalViews(ViewCountIncreased(posts, postId))
         == TotalViews(posts) + Count(posts, (x: Post) => x.id == postId)
  {
    if posts != [] {
      ViewCountIncreasedTotal(posts[1..], postId);
      assert ViewCountIncreased(posts, postId)[1..] == ViewCountIncreased(posts[1..], postId);
    }
  }

  /** An Id no post has leaves the table as it was. */
  lemma ViewCountIncreasedUnknownId(posts: seq<Post>, postId: int)
    requires forall p :: p in posts ==> p.id != postId
    ensures ViewCountIncreased(posts, postId) == posts
  {
    var r := ViewCountIncreased(posts, postId);
    forall i | 0 <= i < |posts| ensures r[i] == posts[i] {
      assert posts[i] in posts;
    }
  }

  /** The stored posts; IncreaseViewCount updates them in place. */
  class PostTable {
    var posts: seq<Post>

    constructor (posts: seq<Post>)
      ensures this.posts == posts
    {
      this.posts := posts;
    }

    method IncreaseViewCount(postId: int)
      modifies this
      ensures posts == ViewCountIncreased(old(posts), postId)
      ensures |posts| == |old(posts)|
      ensures forall i :: 0 <= i < |posts| ==>
        posts[i].viewCount == old(posts)[i].viewCount + (if old(posts)[i].id == postId then 1 else 0)
      ensures forall i :: 0 <= i < |posts| ==> posts[i].(viewCount := old(posts)[i].viewCount) == old(posts)[i]
    {
      posts := ViewCountIncreased(posts, postId);
    }
  }

  // ---------------------------------------------------------------------
  // GetCategoriesAsync

  function OnMenu(c: Category): bool
  {
    c.showOnMenu
  }

  predicate CategoryNameLe(a: Category, b: Category)
  {
    StrLe(a.name, b.name)
  }

  lemma CategoryNameOrderIsTotal()
    ensures TotalPreorder(CategoryNameLe)
  {
    forall a: Category, b: Category ensures CategoryNameLe(a, b) || CategoryNameLe(b, a) {
      StrLeTotal(a.name, b.name);
    }
    forall a: Category, b: Category, c: Category | CategoryNameLe(a, b) && CategoryNameLe(b, c)
      ensures CategoryNameLe(a, c)
    {
      StrLeTransitive(a.name, b.name, c.name);
    }
  }

  lemma CategoriesByNameSorted(categories: seq<Category>)
    ensures SortedBy(OrderBy(categories, CategoryNameLe), CategoryNameLe)
  {
    CategoryNameOrderIsTotal();
    OrderBySorted(categories, CategoryNameLe);
  }

  /** `GetCategoriesAsync`: the categories (on the menu only, when asked), by name, projected with their post counts. */
  function GetCategories(categories: seq<Category>, posts: seq<Post>, showOnMenu: bool): seq<CategoryItem>
  {
    Select(OrderBy(WhereIf(categories, showOnMenu, OnMenu), CategoryNameLe), CategoryItemOf(posts))
  }

  /** The listing is sorted by category name. */
  lemma GetCategoriesSorted(categories: seq<Category>, posts: seq<Post>, showOnMenu: bool)
    ensures var r := GetCategories(categories, posts, showOnMenu);
      forall i, j :: 0 <= i < j < |r| ==> StrLe(r[i].name, r[j].name)
  {
    var sorted := OrderBy(WhereIf(categories, showOnMenu, OnMenu), CategoryNameLe);
    var r := GetCategories(categories, posts, showOnMenu);
    CategoriesByNameSorted(WhereIf(categories, showOnMenu, OnMenu));
    forall i, j | 0 <= i < j < |r| ensures StrLe(r[i].name, r[j].name) {
      assert CategoryNameLe(sorted[i], sorted[j]);
    }
  }

  /** The listing is the projection of the listed categories, each exactly once. */
  lemma GetCategoriesPermutation(categories: seq<Category>, posts: seq<Post>, showOnMenu: bool)
    ensures multiset(GetCategories(categories, posts, showOnMenu))
         == multiset(Select(WhereIf(categories, showOnMenu, OnMenu), CategoryItemOf(posts)))
  {
    var shown := WhereIf(categories, showOnMenu, OnMenu);
    SelectPermutation(OrderBy(shown, CategoryNameLe), shown, CategoryItemOf(posts));
  }

  /** The menu filter keeps a stored category iff the flag is off or the category is on the menu. */
  lemma MenuFilterMembers(categories: seq<Category>, showOnMenu: bool)
    ensures forall c :: c in WhereIf(categories, showOnMenu, OnMenu) <==> c in categories && (!showOnMenu || OnMenu(c))
  {
  }

  /** Every listed item projects a listed category and counts its published posts. */
  lemma GetCategoriesItems(categories: seq<Category>, posts: seq<Post>, showOnMenu: bool, item: CategoryItem)
    requires item in GetCategories(categories, posts, showOnMenu)
    ensures item.postCount == PublishedInCategory(posts, item.id)
    ensures exists c :: c in categories && (!showOnMenu || OnMenu(c)) && item == CategoryItemOf(posts)(c)
  {
    var shown := WhereIf(categories, showOnMenu, OnMenu);
    var sorted := OrderBy(shown, CategoryNameLe);
    SelectMember(sorted, CategoryItemOf(posts), item);
    var i :| 0 <= i < |sorted| && item == CategoryItemOf(posts)(sorted[i]);
    assert sorted[i] in multiset(shown);
    MenuFilterMembers(categories, showOnMenu);
  }

  /** Every listed category has its item in the listing. */
  lemma GetCategoriesComplete(categories: seq<Category>, posts: seq<Post>, showOnMenu: bool, c: Category)
    requires c in categories && (!showOnMenu || OnMenu(c))
    ensures CategoryItemOf(posts)(c) in GetCategories(categories, posts, showOnMenu)
  {
    var shown := WhereIf(categories, showOnMenu, OnMenu);
    MenuFilterMembers(categories, showOnMenu);
    GetCategoriesPermutation(categories, posts, showOnMenu);
    var k :| 0 <= k < |shown| && shown[k] == c;
    assert CategoryItemOf(posts)(c) == Select(shown, CategoryItemOf(posts))[k];
    assert CategoryItemOf(posts)(c) in multiset(GetCategories(categories, posts, showOnMenu));
  }

  /**
   * An item is listed iff it projects a listed category (every category, or
   * those on the menu), and it counts the published posts of its category.
   */
  lemma GetCategoriesMembers(categories: seq<Category>, posts: seq<Post>, showOnMenu: bool)
    ensures var r := GetCategories(categories, posts, showOnMenu);
      && (forall item :: item in r ==> item.postCount == PublishedInCategory(posts, item.id))
      && (forall item :: item in r <==>
            exists c :: c in categories && (!showOnMenu || OnMenu(c)) && item == CategoryItemOf(posts)(c))
  {
    forall item | item in GetCategories(categories, posts, showOnMenu)
      ensures item.postCount == PublishedInCategory(posts, item.id)
      ensures exists c :: c in categories && (!showOnMenu || OnMenu(c)) && item == CategoryItemOf(posts)(c)
    {
      GetCategoriesItems(categories, posts, showOnMenu, item);
    }
    forall c | c in categories && (!showOnMenu || OnMenu(c))
      ensures CategoryItemOf(posts)(c) in GetCategories(categories, posts, showOnMenu)
    {
      GetCategoriesComplete(categories, posts, showOnMenu, c);
    }
  }

  // ---------------------------------------------------------------------
  // GetPagedTagsAsync(pagingParams) and GetTagBySlugAsync

  /** One page of all tags, each with the number of its published posts, in table order. */
  function GetPagedTags(tags: seq<Tag>, posts: seq<Post>, pageNumber: int, pageSize: int): (r: PagedList<TagItem>)
    requires pageNumber >= 1 && pageSize > 0
    ensures r.totalItemCount == |tags|
    ensures |r.items| <= pageSize
    ensures forall item :: item in r.items ==> exists t :: t in tags && item == TagItemOf(posts)(t)
    ensures forall item :: item in r.items ==> item.postCount == PublishedWithTag(posts, item.id)
    ensures var all := Select(tags, TagItemOf(posts));
      r.items == all[PageStart(|all|, pageNumber, pageSize)..PageEnd(|all|, pageNumber, pageSize)]
  {
    var all := Select(tags, TagItemOf(posts));
    var r := ToPagedList(all, pageNumber, pageSize);
    forall item | item in r.items
      ensures exists t :: t in tags && item == TagItemOf(posts)(t)
    {
      assert item in multiset(all);
      SelectMember(tags, TagItemOf(posts), item);
      var i :| 0 <= i < |tags| && item == TagItemOf(posts)(tags[i]);
      assert tags[i] in tags;
    }
    r
  }

  /** A blank slug matches any tag: the first tag is returned, if there is one. */
  function GetTagBySlug(tags: seq<Tag>, slug: string): (r: Option<Tag>)
    ensures r.Some? ==> r.value in tags
    ensures !IsBlank(slug) ==> (r.Some? ==> r.value.urlSlug == slug)
    ensures !IsBlank(slug) ==> (r.None? <==> forall t :: t in tags ==> t.urlSlug != slug)
    ensures IsBlank(slug) ==> (r.None? <==> tags == [])
  {
    var s := WhereIf(tags, !IsBlank(slug), (x: Tag) => x.urlSlug == slug);
    assert s != [] ==> s[0] in s;
    assert IsBlank(slug) && tags != [] ==> s[0] in s;
    FirstOrDefault(s)
  }
}
