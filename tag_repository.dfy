/**
 * TagRepository: the tag queries (keyword filter, lookups by slug and by Id,
 * the name-ordered listings and their paged forms), the slug check the tag
 * endpoints guard with, and the tag table that DeleteTag and
 * CreateOrUpdateTag change in place.
 */
module TagRepository {
  import opened Linq
  import opened Entities

  // ---------------------------------------------------------------------
  // FilterTags

  datatype TagQuery = TagQuery(keyword: string)

  /** The keyword occurs in the tag's Name, Description or UrlSlug. */
  function KeywordIn(keyword: string): Tag -> bool
  {
    (t: Tag) => Contains(t.name, keyword) || Contains(t.description, keyword) || Contains(t.urlSlug, keyword)
  }

  /** `FilterTags`: every tag, narrowed to the keyword's matches when the keyword is not blank. */
  function FilterTags(tags: seq<Tag>, q: TagQuery): seq<Tag>
  {
    WhereIf(tags, !IsBlank(q.keyword), KeywordIn(q.keyword))
  }

  /**
   * A blank keyword keeps the table as it is; otherwise a tag is kept iff the
   * keyword occurs in its Name, Description or UrlSlug, in table order.
   */
  lemma FilterTagsMembers(tags: seq<Tag>, q: TagQuery)
    ensures IsBlank(q.keyword) ==> FilterTags(tags, q) == tags
    ensures !IsBlank(q.keyword) ==> forall t :: t in FilterTags(tags, q) <==>
      t in tags && (Contains(t.name, q.keyword) || Contains(t.description, q.keyword) || Contains(t.urlSlug, q.keyword))
    ensures multiset(FilterTags(tags, q)) <= multiset(tags)
  {
    WhereIsSubMultiset(tags, KeywordIn(q.keyword));
  }

  // ---------------------------------------------------------------------
  // GetTagAsync / GetTagBySlugAsync and GetTagByIdAsync

  function SlugIs(slug: string): Tag -> bool
  {
    (t: Tag) => t.urlSlug == slug
  }

  function IdIs(tagId: int): Tag -> bool
  {
    (t: Tag) => t.id == tagId
  }

  /** `GetTagAsync` and `GetTagBySlugAsync` (the same query): the first tag with that slug. */
  function GetTag(tags: seq<Tag>, slug: string): (r: Option<Tag>)
    ensures r.Some? ==> r.value in tags && r.value.urlSlug == slug
    ensures r.None? <==> forall t :: t in tags ==> t.urlSlug != slug
  {
    var s := Where(tags, SlugIs(slug));
    assert s != [] ==> s[0] in s;
    FirstOrDefault(s)
  }

  /** `GetTagByIdAsync`: the tag whose key is `tagId`. */
  function GetTagById(tags: seq<Tag>, tagId: int): (r: Option<Tag>)
    ensures r.Some? ==> r.value in tags && r.value.id == tagId
    ensures r.None? <==> forall t :: t in tags ==> t.id != tagId
  {
    var s := Where(tags, IdIs(tagId));
    assert s != [] ==> s[0] in s;
    FirstOrDefault(s)
  }

  // ---------------------------------------------------------------------
  // GetTagsAsync and the paged listings

  predicate TagNameLe(a: Tag, b: Tag)
  {
    StrLe(a.name, b.name)
  }

  /** `OrderBy(x => x.Name)` with the direction "DESC". */
  predicate TagNameGe(a: Tag, b: Tag)
  {
    StrLe(b.name, a.name)
  }

  lemma TagNameOrdersAreTotal()
    ensures TotalPreorder(TagNameLe)
    ensures TotalPreorder(TagNameGe)
  {
    forall a: Tag, b: Tag ensures TagNameLe(a, b) || TagNameLe(b, a) {
      StrLeTotal(a.name, b.name);
    }
    forall a: Tag, b: Tag, c: Tag | TagNameLe(a, b) && TagNameLe(b, c) ensures TagNameLe(a, c) {
      StrLeTransitive(a.name, b.name, c.name);
    }
    forall a: Tag, b: Tag ensures TagNameGe(a, b) || TagNameGe(b, a) {
      StrLeTotal(a.name, b.name);
    }
    forall a: Tag, b: Tag, c: Tag | TagNameGe(a, b) && TagNameGe(b, c) ensures TagNameGe(a, c) {
      StrLeTransitive(c.name, b.name, a.name);
    }
  }

  lemma TagsByNameSorted(tags: seq<Tag>)
    ensures SortedBy(OrderBy(tags, TagNameLe), TagNameLe)
  {
    TagNameOrdersAreTotal();
    OrderBySorted(tags, TagNameLe);
  }

  lemma TagsByNameDescendingSorted(tags: seq<Tag>)
    ensures SortedBy(OrderBy(tags, TagNameGe), TagNameGe)
  {
    TagNameOrdersAreTotal();
    OrderBySorted(tags, TagNameGe);
  }

  /** `GetTagsAsync`: every tag, by name, projected with its published-post count. */
  function GetTags(tags: seq<Tag>, posts: seq<Post>): seq<TagItem>
  {
    Select(OrderBy(tags, TagNameLe), TagItemOf(posts))
  }

  /**
   * One item per tag, each tag exactly once, sorted by name, each counting
   * the published posts that carry the tag.
   */
  lemma GetTagsListing(tags: seq<Tag>, posts: seq<Post>)
    ensures var r := GetTags(tags, posts);
      && multiset(r) == multiset(Select(tags, TagItemOf(posts)))
      && (forall i, j :: 0 <= i < j < |r| ==> StrLe(r[i].name, r[j].name))
      && (forall item :: item in r <==> exists t :: t in tags && item == TagItemOf(posts)(t))
      && (forall item :: item in r ==> item.postCount == PublishedWithTag(posts, item.id))
  {
    var sorted := OrderBy(tags, TagNameLe);
    var r := GetTags(tags, posts);
    SelectPermutation(sorted, tags, TagItemOf(posts));
    TagsByNameSorted(tags);
    forall i, j | 0 <= i < j < |r| ensures StrLe(r[i].name, r[j].name) {
      assert TagNameLe(sorted[i], sorted[j]);
    }
    forall item ensures item in r <==> exists t :: t in tags && item == TagItemOf(posts)(t) {
      SelectOrderByMembers(tags, TagNameLe, TagItemOf(posts), item);
    }
  }

  /** `GetPagedTagsAsync(pagingParams)`: one page of the name-ordered tag items. */
  function GetPagedTagItems(tags: seq<Tag>, posts: seq<Post>, pageNumber: int, pageSize: int): (r: PagedList<TagItem>)
    requires pageNumber >= 1 && pageSize > 0
    ensures r.totalItemCount == |tags|
    ensures |r.items| <= pageSize
    ensures multiset(r.items) <= multiset(Select(tags, TagItemOf(posts)))
    ensures forall i, j :: 0 <= i < j < |r.items| ==> StrLe(r.items[i].name, r.items[j].name)
    ensures var all := GetTags(tags, posts);
      r.items == all[PageStart(|all|, pageNumber, pageSize)..PageEnd(|all|, pageNumber, pageSize)]
  {
    var all := GetTags(tags, posts);
    GetTagsListing(tags, posts);
    var r := ToPagedList(all, pageNumber, pageSize);
    PageOfSorted(all, pageNumber, pageSize, (a: TagItem, b: TagItem) => StrLe(a.name, b.name));
    r
  }

  /**
   * `GetPagedTagsAsync<T>(query, pagingParams, mapper)`: one page of whatever
   * the caller's mapper makes of the filtered tags.
   */
  function GetPagedTagsMapped<U>(tags: seq<Tag>, q: TagQuery, mapper: seq<Tag> -> seq<U>, pageNumber: int, pageSize: int): (r: PagedList<U>)
    requires pageNumber >= 1 && pageSize > 0
    ensures |r.items| <= pageSize
    ensures multiset(r.items) <= multiset(mapper(FilterTags(tags, q)))
    ensures var all := mapper(FilterTags(tags, q));
      r.totalItemCount == |all| && r.items == all[PageStart(|all|, pageNumber, pageSize)..PageEnd(|all|, pageNumber, pageSize)]
  {
    ToPagedList(mapper(FilterTags(tags, q)), pageNumber, pageSize)
  }

  /** `GetPagedTagsAsync(condition, pageNumber, pageSize)`: the filtered tags, by Name descending, one page. */
  function GetPagedTagsByQuery(tags: seq<Tag>, q: TagQuery, pageNumber: int, pageSize: int): (r: PagedList<Tag>)
    requires pageNumber >= 1 && pageSize > 0
    ensures r.totalItemCount == |FilterTags(tags, q)|
    ensures |r.items| <= pageSize
    ensures multiset(r.items) <= multiset(FilterTags(tags, q))
    ensures forall i, j :: 0 <= i < j < |r.items| ==> StrLe(r.items[j].name, r.items[i].name)
    ensures var sorted := OrderBy(FilterTags(tags, q), TagNameGe);
      r.items == sorted[PageStart(|sorted|, pageNumber, pageSize)..PageEnd(|sorted|, pageNumber, pageSize)]
  {
    var sorted := OrderBy(FilterTags(tags, q), TagNameGe);
    TagsByNameDescendingSorted(FilterTags(tags, q));
    PageByNameDescending(sorted, pageNumber, pageSize);
    ToPagedList(sorted, pageNumber, pageSize)
  }

  lemma PageByNameDescending(s: seq<Tag>, pageNumber: int, pageSize: int)
    requires pageNumber >= 1 && pageSize > 0
    requires SortedBy(s, TagNameGe)
    ensures var items := ToPagedList(s, pageNumber, pageSize).items;
      forall i, j :: 0 <= i < j < |items| ==> StrLe(items[j].name, items[i].name)
  {
    var items := ToPagedList(s, pageNumber, pageSize).items;
    PageOfSorted(s, pageNumber, pageSize, TagNameGe);
    forall i, j | 0 <= i < j < |items| ensures StrLe(items[j].name, items[i].name) {
      assert TagNameGe(items[i], items[j]);
    }
  }

  /** Every tag of a page is a stored tag that the query keeps. */
  lemma GetPagedTagsByQueryMembers(tags: seq<Tag>, q: TagQuery, pageNumber: int, pageSize: int)
    requires pageNumber >= 1 && pageSize > 0
    ensures forall t :: t in GetPagedTagsByQuery(tags, q, pageNumber, pageSize).items ==>
      t in tags && (IsBlank(q.keyword) || KeywordIn(q.keyword)(t))
  {
    var items := GetPagedTagsByQuery(tags, q, pageNumber, pageSize).items;
    forall t | t in items ensures t in tags && (IsBlank(q.keyword) || KeywordIn(q.keyword)(t)) {
      assert t in multiset(items);
      assert t in multiset(FilterTags(tags, q));
    }
  }

  function NameContains(name: string): Tag -> bool
  {
    (t: Tag) => Contains(t.name, name)
  }

  /**
   * `GetPagedTagsAsync(pagingParams, name)`: the tags whose Name contains
   * `name` (every tag when `name` is blank), projected, one page.
   */
  function GetPagedTagsByName(tags: seq<Tag>, posts: seq<Post>, name: string, pageNumber: int, pageSize: int): (r: PagedList<TagItem>)
    requires pageNumber >= 1 && pageSize > 0
    ensures |r.items| <= pageSize
    ensures IsBlank(name) ==> r.totalItemCount == |tags|
    ensures r.totalItemCount == Count(tags, (t: Tag) => IsBlank(name) || Contains(t.name, name))
    ensures var all := Select(WhereIf(tags, !IsBlank(name), NameContains(name)), TagItemOf(posts));
      r.items == all[PageStart(|all|, pageNumber, pageSize)..PageEnd(|all|, pageNumber, pageSize)]
  {
    var named := WhereIf(tags, !IsBlank(name), NameContains(name));
    NamedTagsCount(tags, name);
    ToPagedList(Select(named, TagItemOf(posts)), pageNumber, pageSize)
  }

  lemma NamedTagsCount(tags: seq<Tag>, name: string)
    ensures |WhereIf(tags, !IsBlank(name), NameContains(name))| == Count(tags, (t: Tag) => IsBlank(name) || Contains(t.name, name))
    ensures IsBlank(name) ==> WhereIf(tags, !IsBlank(name), NameContains(name)) == tags
  {
    if IsBlank(name) {
      WhereKeepsAll(tags, (t: Tag) => IsBlank(name) || Contains(t.name, name));
    } else {
      WhereCongruence(tags, (t: Tag) => IsBlank(name) || Contains(t.name, name), NameContains(name));
    }
  }

  /** Every item of a page projects a stored tag whose Name contains `name` (any tag when `name` is blank). */
  lemma GetPagedTagsByNameMembers(tags: seq<Tag>, posts: seq<Post>, name: string, pageNumber: int, pageSize: int)
    requires pageNumber >= 1 && pageSize > 0
    ensures forall item :: item in GetPagedTagsByName(tags, posts, name, pageNumber, pageSize).items ==>
      exists t :: t in tags && (IsBlank(name) || Contains(t.name, name)) && item == TagItemOf(posts)(t)
  {
    var named := WhereIf(tags, !IsBlank(name), NameContains(name));
    var items := GetPagedTagsByName(tags, posts, name, pageNumber, pageSize).items;
    forall item | item in items
      ensures exists t :: t in tags && (IsBlank(name) || Contains(t.name, name)) && item == TagItemOf(posts)(t)
    {
      assert item in multiset(Select(named, TagItemOf(posts)));
      SelectMembers(named, TagItemOf(posts), item);
    }
  }

  // ---------------------------------------------------------------------
  // IsTagSlugExistAsync

  /** `IsTagSlugExistAsync` as written: whether some *category* has the slug. */
  function IsTagSlugExist(categories: seq<Category>, slug: string): (r: bool)
    ensures r <==> exists c :: c in categories && c.urlSlug == slug
  {
    Any(categories, (c: Category) => c.urlSlug == slug)
  }

  /** The check the tag endpoints evidently mean: some other tag (a different Id) already has the slug. */
  function IsTagSlugTaken(tags: seq<Tag>, tagId: int, slug: string): (r: bool)
    ensures r <==> exists t :: t in tags && t.id != tagId && t.urlSlug == slug
  {
    Any(tags, (t: Tag) => t.id != tagId && t.urlSlug == slug)
  }

  ghost predicate UniqueTagSlugs(tags: seq<Tag>)
  {
    forall i, j :: 0 <= i < j < |tags| ==> tags[i].urlSlug != tags[j].urlSlug
  }

  /**
   * The check as written lets a second tag with an existing tag slug
   * through: with no categories, nothing is ever in use.
   */
  lemma IsTagSlugExistMissesTags()
    ensures var tags := [Tag(1, "Dafny", "dafny", "")];
      && !IsTagSlugExist([], "dafny")
      && UniqueTagSlugs(tags)
      && !UniqueTagSlugs(tags + [Tag(2, "Dafny 4", "dafny", "")])
  {
    var tags := [Tag(1, "Dafny", "dafny", "")];
    var grown := tags + [Tag(2, "Dafny 4", "dafny", "")];
    assert grown[0].urlSlug == grown[1].urlSlug;
  }

  /** A tag added after passing the corrected check keeps the tag slugs unique. */
  lemma AddAfterTagSlugCheck(tags: seq<Tag>, tag: Tag)
    requires UniqueTagSlugs(tags)
    requires forall t :: t in tags ==> t.id != tag.id
    requires !IsTagSlugTaken(tags, tag.id, tag.urlSlug)
    ensures UniqueTagSlugs(tags + [tag])
  {
    var s := tags + [tag];
    forall i, j | 0 <= i < j < |s| ensures s[i].urlSlug != s[j].urlSlug {
      if j == |tags| {
        assert s[i] in tags;
      }
    }
  }

  // ---------------------------------------------------------------------
  // The tag table: DeleteTagAsync and CreateOrUpdateTagAsync

  function IdIsNot(tagId: int): Tag -> bool
  {
    (t: Tag) => t.id != tagId
  }

  /** `Update(tag)`: the row with the tag's key takes the tag's values. */
  function ReplaceById(tag: Tag): Tag -> Tag
  {
    (t: Tag) => if t.id == tag.id then tag else t
  }

  ghost predicate UniqueTagIds(tags: seq<Tag>)
  {
    forall i, j :: 0 <= i < j < |tags| ==> tags[i].id != tags[j].id
  }

  /** After the update, looking the key up finds the new values. */
  lemma ReplaceByIdThenFind(tags: seq<Tag>, tag: Tag)
    requires UniqueTagIds(tags)
    requires exists t :: t in tags && t.id == tag.id
    ensures GetTagById(Select(tags, ReplaceById(tag)), tag.id) == Some(tag)
    ensures |Select(tags, ReplaceById(tag))| == |tags|
  {
    var r := Select(tags, ReplaceById(tag));
    var k :| 0 <= k < |tags| && tags[k].id == tag.id;
    assert r[k] == tag && r[k] in r && IdIs(tag.id)(r[k]);
    forall x | x in r && IdIs(tag.id)(x) ensures x == tag {
      var i :| 0 <= i < |r| && r[i] == x;
    }
    WhereKeepsOnly(r, IdIs(tag.id), tag);
  }

  /** After the delete, the key is gone and every other row is still there. */
  lemma DeleteThenFind(tags: seq<Tag>, tagId: int)
    ensures GetTagById(Where(tags, IdIsNot(tagId)), tagId).None?
    ensures forall t :: t in tags && t.id != tagId ==> t in Where(tags, IdIsNot(tagId))
  {
  }

  datatype SaveOutcome =
    | Saved
      /** `Update` of a key no row has: saving affects no row and throws a concurrency error. */
    | NoRowToUpdate

  /**
   * The stored tags. `nextId` stands for the identity column: the key the
   * store gives the next added row.
   */
  class TagTable {
    var tags: seq<Tag>
    var nextId: int

    ghost predicate Valid()
      reads this
    {
      && UniqueTagIds(tags)
      && 0 < nextId
      && forall t :: t in tags ==> 0 < t.id < nextId
    }

    constructor ()
      ensures Valid() && tags == [] && nextId == 1
    {
      tags := [];
      nextId := 1;
    }

    /** `DeleteTagAsync`: delete every row with that key; true iff some row went. */
    method DeleteTag(tagId: int) returns (deleted: bool)
      requires Valid()
      modifies this
      ensures Valid()
      ensures tags == Where(old(tags), IdIsNot(tagId)) && nextId == old(nextId)
      ensures deleted <==> exists t :: t in old(tags) && t.id == tagId
      ensures deleted <==> |tags| < |old(tags)|
    {
      var removed := Count(tags, IdIs(tagId));
      var kept := Where(tags, IdIsNot(tagId));
      CountSplits(tags, IdIs(tagId), IdIsNot(tagId));
      WhereUniqueIds(tags, IdIsNot(tagId));
      assert forall t :: t in kept ==> t in tags;
      tags := kept;
      deleted := removed > 0;
    }

    /**
     * `CreateOrUpdateTagAsync`: a positive key updates that row, any other
     * key adds the tag as a new row under the next identity value.
     */
    method CreateOrUpdateTag(tag: Tag) returns (outcome: SaveOutcome)
      requires Valid()
      modifies this
      ensures Valid()
      ensures tag.id > 0 && (exists t :: t in old(tags) && t.id == tag.id) ==>
        outcome == Saved && tags == Select(old(tags), ReplaceById(tag)) && nextId == old(nextId)
      ensures tag.id > 0 && (exists t :: t in old(tags) && t.id == tag.id) ==>
        GetTagById(tags, tag.id) == Some(tag)
      ensures tag.id > 0 && (forall t :: t in old(tags) ==> t.id != tag.id) ==>
        outcome == NoRowToUpdate && tags == old(tags) && nextId == old(nextId)
      ensures tag.id <= 0 ==>
        outcome == Saved && tags == old(tags) + [tag.(id := old(nextId))] && nextId == old(nextId) + 1
    {
      if tag.id > 0 {
        if GetTagById(tags, tag.id).Some? {
          var updated := Select(tags, ReplaceById(tag));
          ReplaceKeepsIds(tags, tag);
          ReplaceByIdThenFind(tags, tag);
          forall t | t in updated ensures 0 < t.id < nextId {
            var i :| 0 <= i < |updated| && updated[i] == t;
            assert tags[i] in tags;
          }
          tags := updated;
          outcome := Saved;
        } else {
          outcome := NoRowToUpdate;
        }
      } else {
        AddKeepsIds(tags, tag.(id := nextId));
        tags := tags + [tag.(id := nextId)];
        nextId := nextId + 1;
        outcome := Saved;
      }
    }
  }

  // ---------------------------------------------------------------------
  // Helpers for the table's invariant

  lemma {:induction false} CountSplits(s: seq<Tag>, f: Tag -> bool, g: Tag -> bool)
    requires forall x :: g(x) == !f(x)
    ensures Count(s, f) + |Where(s, g)| == |s|
  {
    if s != [] {
      CountSplits(s[1..], f, g);
    }
  }

  lemma {:induction false} WhereUniqueIds(s: seq<Tag>, f: Tag -> bool)
    requires UniqueTagIds(s)
    ensures UniqueTagIds(Where(s, f))
  {
    if s != [] {
      WhereUniqueIds(s[1..], f);
      var rest := Where(s[1..], f);
      if f(s[0]) {
        var r := [s[0]] + rest;
        forall i, j | 0 <= i < j < |r| ensures r[i].id != r[j].id {
          if i == 0 {
            assert r[j] in rest;
            var k :| 0 <= k < |s[1..]| && s[1..][k] == r[j];
            assert s[k + 1] == r[j];
          } else {
            assert r[i] == rest[i - 1] && r[j] == rest[j - 1];
          }
        }
      }
    }
  }

  lemma ReplaceKeepsIds(tags: seq<Tag>, tag: Tag)
    ensures var r := Select(tags, ReplaceById(tag));
      |r| == |tags| && forall i :: 0 <= i < |r| ==> r[i].id == tags[i].id
  {
  }

  lemma AddKeepsIds(tags: seq<Tag>, tag: Tag)
    ensures forall t :: t in tags + [tag] <==> t in tags || t == tag
  {
  }

  /** When every row with the key equals `v`, the first row with the key is `v`. */
  lemma WhereKeepsOnly(s: seq<Tag>, f: Tag -> bool, v: Tag)
    requires forall x :: x in s && f(x) ==> x == v
    requires exists x :: x in s && f(x)
    ensures FirstOrDefault(Where(s, f)) == Some(v)
  {
    var x :| x in s && f(x);
    var w := Where(s, f);
    assert x in w;
    assert w[0] in w;
  }
}
