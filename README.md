# TatBlog repositories and post validator in Dafny

This project models the data layer of the TatBlog blog engine and the rules its
admin post form applies. It has three parts.

- **BlogRepository** covers the post queries:
  - the `PostQuery` filter, which is eleven conditional `Where` clauses;
  - the paged, newest-first post listing;
  - lookup by year, month and slug;
  - the most-viewed posts;
  - the post slug-conflict check;
  - the in-place view-count update;
  - the category listing and the tag listing, each with counts of published posts.
- **TagRepository** covers:
  - the tag keyword filter;
  - lookups by slug and by key;
  - the four paged tag listings;
  - the slug check used by the tag endpoints;
  - the tag table, which `DeleteTag` and `CreateOrUpdateTag` change in place.
- **PostValidator** covers the thirteen rules of the post edit form. The validator returns the failing rules in the order they are declared.

The store is a set of in-memory tables (`seq` of records). A query is a pure function of those tables. The two operations that update rows in place are methods on classes:

- `PostTable.IncreaseViewCount`;
- `TagTable.DeleteTag` and `TagTable.CreateOrUpdateTag`.

A small LINQ layer (module `Linq`) gives `Where`, `WhereIf`, `Any`, `Count`,
`FirstOrDefault`, `Select`, `OrderBy` (a stable insertion sort), `Take` and
paging. It also proves the laws the repositories rely on.

How the model reads the source:

- Strings are compared ordinally. `Contains` is substring search, and name ordering is lexicographic on characters.
- `string.IsNullOrWhiteSpace` is `IsBlank`, with a null string modelled as the empty string.
- A date is a record down to the 100-nanosecond tick, as `DateTime.Now` stamps it, compared field by field.
- A page is the slice `[(p-1)*k, p*k)` of the ordered rows, where page `p >= 1` and size `k > 0`. This is an assumption. The paging extension `ToPagedListAsync` is not part of this model.

Two points where the code decides what the model states:

- `IsTagSlugExistAsync` (`TagRepository.cs:150-153`) takes no id and searches the Categories table, yet the tag endpoints use it as the tag-slug guard. See Findings.
- `OrderByDescending(x => x.ViewCount)` (`BlogRepository.cs:51-59`) allows ties, so the model proves a non-increasing order of view counts.

## Model

| member | source | states |
|---|---|---|
| BlogRepository.FilterFirstIsWhere | src/TipsAndTricks/TatBlog.Services/Blogs/BlogRepository.cs:131-197 | Applying the first `n` conditional filters one after another equals a single `Where` that keeps a post when it passes every filter that is set among the first `n`. |
| BlogRepository.PassesAllIsSatisfies | src/TipsAndTricks/TatBlog.Services/Blogs/BlogRepository.cs:138-195 | A post passes all eleven set filters iff it satisfies the condition read as one predicate, field by field. |
| BlogRepository.FilterPostsIsConjunction | src/TipsAndTricks/TatBlog.Services/Blogs/BlogRepository.cs:131-197 | `FilterPosts` equals one `Where` with the conjunction of the set fields' predicates, in table order. |
| BlogRepository.FilterPostsMembers | src/TipsAndTricks/TatBlog.Services/Blogs/BlogRepository.cs:131-197 | A post is in the result iff it is stored and satisfies every set field. |
| BlogRepository.FilterPostsNoCondition | src/TipsAndTricks/TatBlog.Services/Blogs/BlogRepository.cs:131-197 | With no field set, the result is the whole table. |
| BlogRepository.FilterPostsContradictory | src/TipsAndTricks/TatBlog.Services/Blogs/BlogRepository.cs:138-146 | PublishedOnly together with NotPublished gives the empty result. |
| BlogRepository.FilterPostsByKeyword | src/TipsAndTricks/TatBlog.Services/Blogs/BlogRepository.cs:173-180 | With a non-blank keyword as the only condition, a post is kept iff the keyword occurs in its title, short description, description, category name or one of its tag names. |
| BlogRepository.PostsNewestFirstSorted | src/TipsAndTricks/TatBlog.Services/Blogs/BlogRepository.cs:221-224 | The filtered posts ordered by PostedDate descending are sorted by that order. The order compares the full timestamp, down to the sub-second tick. |
| BlogRepository.GetPagedPosts | src/TipsAndTricks/TatBlog.Services/Blogs/BlogRepository.cs:221-224 | The total is the number of filtered posts. A page holds at most `pageSize` posts. Every post on it is stored and satisfies the condition, and the posts are in non-increasing PostedDate order, compared down to the tick. The page is the slice from `(p-1)*k` to `p*k` of the filtered posts ordered newest first. |
| Linq.PageLength | src/TipsAndTricks/TatBlog.Services/Blogs/BlogRepository.cs:221-224 | Under the slice assumption, a page that starts inside the rows holds `min(k, rows left)` of them, and a page past the end is empty. |
| Linq.PageHoldsRow | src/TipsAndTricks/TatBlog.Services/Blogs/BlogRepository.cs:221-224 | Under the slice assumption, position `j` of page `p` holds row `(p-1)*k + j` whenever that row exists, so every row is on some page. |
| BlogRepository.LaterPostFirst | src/TipsAndTricks/TatBlog.Services/Blogs/BlogRepository.cs:221-224 | With no condition, of two posts the later-stamped one is on page 1 of size 1, even when the two differ only below the second. |
| BlogRepository.GetPost | src/TipsAndTricks/TatBlog.Services/Blogs/BlogRepository.cs:26-48 | A returned post is stored and matches every argument that is set (year > 0, month > 0, non-blank slug). None is returned iff no stored post matches. |
| BlogRepository.MostViewedFirstSorted | src/TipsAndTricks/TatBlog.Services/Blogs/BlogRepository.cs:51-59 | Ordering by ViewCount descending yields a sorted table. |
| BlogRepository.GetPopularArticlesIsTop | src/TipsAndTricks/TatBlog.Services/Blogs/BlogRepository.cs:51-59 | The result has `min(n, count)` posts (none when n is 0), each a stored post, with non-increasing ViewCount. No post left out has more views than any post returned. |
| BlogRepository.IsPostSlugExisted | src/TipsAndTricks/TatBlog.Services/Blogs/BlogRepository.cs:62-66 | True iff a post with a different Id has that slug. |
| BlogRepository.OwnSlugIsNoConflict | src/TipsAndTricks/TatBlog.Services/Blogs/BlogRepository.cs:62-66 | With unique slugs, a stored post that keeps its own slug is never reported as a conflict. |
| BlogRepository.InsertAfterSlugCheck | src/TipsAndTricks/TatBlog.Services/Blogs/BlogRepository.cs:62-66 | A new post (a fresh Id) that passes the check keeps the post slugs unique. |
| BlogRepository.UpdateAfterSlugCheck | src/TipsAndTricks/TatBlog.Services/Blogs/BlogRepository.cs:62-66 | An edited post that passes the check, saved over the row with its Id, keeps the post slugs unique. |
| BlogRepository.ViewCountIncreasedTotal | src/TipsAndTricks/TatBlog.Services/Blogs/BlogRepository.cs:69-74 | The increment raises the sum of all view counts by exactly the number of rows with that Id. |
| BlogRepository.ViewCountIncreasedUnknownId | src/TipsAndTricks/TatBlog.Services/Blogs/BlogRepository.cs:69-74 | An Id that no post has leaves the table unchanged. |
| BlogRepository.PostTable.IncreaseViewCount | src/TipsAndTricks/TatBlog.Services/Blogs/BlogRepository.cs:69-74 | In place: a row with that Id gains exactly one view. Every other row, and every other field, is unchanged. |
| BlogRepository.PostTable.constructor | src/TipsAndTricks/TatBlog.Services/Blogs/BlogRepository.cs:69-74 | The table holds the given posts. |
| BlogRepository.CategoriesByNameSorted | src/TipsAndTricks/TatBlog.Services/Blogs/BlogRepository.cs:78-99 | Ordering categories by Name yields a sorted sequence. |
| BlogRepository.GetCategoriesSorted | src/TipsAndTricks/TatBlog.Services/Blogs/BlogRepository.cs:78-99 | The category listing is in non-decreasing Name order. |
| BlogRepository.GetCategoriesPermutation | src/TipsAndTricks/TatBlog.Services/Blogs/BlogRepository.cs:78-99 | The listing is a permutation of the projections of the listed categories, each exactly once. |
| BlogRepository.MenuFilterMembers | src/TipsAndTricks/TatBlog.Services/Blogs/BlogRepository.cs:82-85 | A category passes the menu filter iff it is stored and either the flag is off or the category is on the menu. |
| BlogRepository.GetCategoriesItems | src/TipsAndTricks/TatBlog.Services/Blogs/BlogRepository.cs:78-99 | Every item projects a listed category, and its PostCount is the number of published posts in that category. |
| BlogRepository.GetCategoriesComplete | src/TipsAndTricks/TatBlog.Services/Blogs/BlogRepository.cs:78-99 | Every listed category appears in the listing. |
| BlogRepository.GetCategoriesMembers | src/TipsAndTricks/TatBlog.Services/Blogs/BlogRepository.cs:78-99 | An item is in the listing iff it projects a listed category. Every item's PostCount counts that category's published posts. |
| BlogRepository.GetPagedTags | src/TipsAndTricks/TatBlog.Services/Blogs/BlogRepository.cs:103-116 | The total is the number of tags, and a page holds at most `pageSize` items. Every item projects a stored tag, and its PostCount is the number of published posts carrying that tag. The page is the slice from `(p-1)*k` of the projections in table order. |
| BlogRepository.GetTagBySlug | src/TipsAndTricks/TatBlog.Services/Blogs/BlogRepository.cs:119-129 | With a non-blank slug: a tag with that slug is returned, and None iff no tag has it. With a blank slug: any stored tag is returned, and None iff there are no tags. |
| TagRepository.FilterTagsMembers | src/TipsAndTricks/TatBlog.Services/Blogs/TagRepository.cs:109-118 | A blank keyword keeps every tag. Otherwise a tag is kept iff the keyword occurs in its Name, Description or UrlSlug. The result is drawn from the table. |
| TagRepository.GetTag | src/TipsAndTricks/TatBlog.Services/Blogs/TagRepository.cs:21-26 | A returned tag is stored and has the slug. None is returned iff no tag has it. GetTagBySlugAsync (lines 49-53) is the same query. |
| TagRepository.GetTagById | src/TipsAndTricks/TatBlog.Services/Blogs/TagRepository.cs:44-47 | A returned tag is stored and has that key. None is returned iff no tag has it. |
| TagRepository.TagsByNameSorted | src/TipsAndTricks/TatBlog.Services/Blogs/TagRepository.cs:28-42 | Ordering tags by Name ascending yields a sorted sequence. |
| TagRepository.GetTagsListing | src/TipsAndTricks/TatBlog.Services/Blogs/TagRepository.cs:28-42 | There is one item per tag (a permutation of the projections), in non-decreasing Name order. An item is in the listing iff it projects a stored tag, and its PostCount counts that tag's published posts. |
| TagRepository.GetPagedTagItems | src/TipsAndTricks/TatBlog.Services/Blogs/TagRepository.cs:55-70 | The total is the number of tags. A page holds at most `pageSize` items, drawn from the projections and in Name order. The page is the slice from `(p-1)*k` of the name-ordered listing. |
| TagRepository.GetPagedTagsMapped | src/TipsAndTricks/TatBlog.Services/Blogs/TagRepository.cs:72-82 | The total is the length of the mapper's output for the filtered tags. A page holds at most `pageSize` items and is the slice from `(p-1)*k` of that output, in the mapper's own order. The sort column of the paging parameters is not applied. |
| TagRepository.TagsByNameDescendingSorted | src/TipsAndTricks/TatBlog.Services/Blogs/TagRepository.cs:84-90 | Ordering tags by Name descending yields a sorted sequence. |
| TagRepository.GetPagedTagsByQuery | src/TipsAndTricks/TatBlog.Services/Blogs/TagRepository.cs:84-90 | The total is the number of filtered tags. A page holds at most `pageSize` filtered tags, in non-increasing Name order. The page is the slice from `(p-1)*k` to `p*k` of the filtered tags ordered by Name descending. |
| TagRepository.GetPagedTagsByQueryMembers | src/TipsAndTricks/TatBlog.Services/Blogs/TagRepository.cs:84-90 | Every tag on a page is stored and matches the keyword (any tag when the keyword is blank). |
| TagRepository.GetPagedTagsByName | src/TipsAndTricks/TatBlog.Services/Blogs/TagRepository.cs:92-107 | A page holds at most `pageSize` items. The total counts the tags whose Name contains `name`, and is every tag when `name` is blank. The page is the slice from `(p-1)*k` of the matching tags' projections in table order. |
| TagRepository.GetPagedTagsByNameMembers | src/TipsAndTricks/TatBlog.Services/Blogs/TagRepository.cs:92-107 | Every item projects a stored tag whose Name contains `name`, or any stored tag when `name` is blank. |
| TagRepository.IsTagSlugExist | src/TipsAndTricks/TatBlog.Services/Blogs/TagRepository.cs:150-153 | As written: true iff some category has the slug. |
| TagRepository.IsTagSlugExistMissesTags | src/TipsAndTricks/TatBlog.Services/Blogs/TagRepository.cs:150-153 | Counterexample. With one tag using slug `dafny` and no categories, the check passes, yet adding a second tag with that slug breaks slug uniqueness. |
| TagRepository.IsTagSlugTaken | src/TipsAndTricks/TatBlog.Services/Blogs/TagRepository.cs:150-153 | Corrected check: true iff another tag (a different Id) has the slug. |
| TagRepository.AddAfterTagSlugCheck | src/TipsAndTricks/TatBlog.Services/Blogs/TagRepository.cs:150-153 | A new tag that passes the corrected check keeps the tag slugs unique. |
| TagRepository.ReplaceByIdThenFind | src/TipsAndTricks/TatBlog.Services/Blogs/TagRepository.cs:138-141 | With unique keys, after an update of an existing key the table keeps its size and a lookup by that key finds the new values. |
| TagRepository.DeleteThenFind | src/TipsAndTricks/TatBlog.Services/Blogs/TagRepository.cs:130-132 | After the delete, no tag has the key, and every tag with another key is still there. |
| TagRepository.TagTable.constructor | src/TipsAndTricks/TatBlog.Services/Blogs/TagRepository.cs:120-148 | An empty table whose identity column starts at 1, satisfying the invariant. |
| TagRepository.TagTable.DeleteTag | src/TipsAndTricks/TatBlog.Services/Blogs/TagRepository.cs:120-133 | Exactly the rows with that key are removed, and the other rows stay in order. The result is true iff some stored row had the key, which holds iff the table shrank. The invariant is kept: keys are unique and positive, and below the next identity value. |
| TagRepository.TagTable.CreateOrUpdateTag | src/TipsAndTricks/TatBlog.Services/Blogs/TagRepository.cs:135-148 | A positive key that exists: the row is replaced and the rest unchanged. A positive key that no row has: nothing changes and the save fails. Any other key: the tag is appended under the next identity value and the table grows by one. After an update, looking the key up finds the new values. The invariant is kept. |
| PostValidator.CheckFirst | src/TipsAndTricks/TatBlog.WebApp/Validations/PostValidator.cs:15-63 | The first `n` rules report exactly the failing rules among them, each once, in declaration order. |
| PostValidator.Validate | src/TipsAndTricks/TatBlog.WebApp/Validations/PostValidator.cs:15-63 | A rule is reported iff it fails, and the failures are in declaration order without repeats. |
| PostValidator.AcceptedIff | src/TipsAndTricks/TatBlog.WebApp/Validations/PostValidator.cs:15-89 | The form is accepted iff every rule holds, each written out on its own. Title is non-blank and at most 500 chars. ShortDescription and Description are non-blank. Meta is non-blank and at most 1000 chars. UrlSlug is non-blank, at most 1000 chars, and not used by another post. CategoryId and AuthorId are non-zero. At least one tag is selected. The image rule holds. |
| PostValidator.RuleFailureBreaksAll | src/TipsAndTricks/TatBlog.WebApp/Validations/PostValidator.cs:15-89 | Any single failing rule falsifies the written-out conjunction. |
| PostValidator.NoFailureHoldsAll | src/TipsAndTricks/TatBlog.WebApp/Validations/PostValidator.cs:15-89 | When no rule fails, every conjunct of the written-out conjunction holds. |
| PostValidator.NewPostNeedsImageFile | src/TipsAndTricks/TatBlog.WebApp/Validations/PostValidator.cs:52-57 | For a new post (Id <= 0), the image rule fails iff no file of positive length was chosen, whatever post is stored. |
| PostValidator.ExistingImageWaivesFile | src/TipsAndTricks/TatBlog.WebApp/Validations/PostValidator.cs:58-89 | For an existing post: a stored non-blank ImageUrl means the image rule passes. With no stored post or a blank ImageUrl, the rule fails iff no file of positive length was chosen. |
| PostValidator.OwnSlugPasses | src/TipsAndTricks/TatBlog.WebApp/Validations/PostValidator.cs:35-38 | With unique slugs, re-saving a stored post under its own slug never fails the slug rule. |
| PostValidator.AcceptedUpdateKeepsSlugsUnique | src/TipsAndTricks/TatBlog.WebApp/Validations/PostValidator.cs:35-38 | Saving an accepted form over the row with its Id keeps the post slugs unique. |
| PostValidator.AcceptedNewPostKeepsSlugsUnique | src/TipsAndTricks/TatBlog.WebApp/Validations/PostValidator.cs:35-38 | An accepted new post (form Id <= 0, stored Ids positive) added under a fresh Id keeps the post slugs unique. |

## Left out

- EF Core mechanics are not modelled: `Include`, `AsNoTracking`, change tracking, `FindAsync`, `SaveChangesAsync`, async calls and cancellation. The store is a set of in-memory sequences, and eager loading has no effect on the filters.
- Database collation is not modelled. `==`, `Contains` and name ordering are ordinal on characters, and there is no case folding or culture.
- Text lengths are counted in Unicode scalar values. .NET counts UTF-16 code units, so the two differ only for characters outside the Basic Multilingual Plane.
- Paging is modelled by the slice assumption above. The paging extension is not part of this model, so neither is its handling of page numbers below 1, of sizes of 0 or less, or of total-page metadata. The model requires `p >= 1` and `k > 0`.
- GetPagedTags: the order of `GetPagedTagsAsync(pagingParams)` (`BlogRepository.cs:103-116`) comes from the paging parameters' sort column, which the extension applies. The model pages in table order and proves no order.
- GetPagedTagItems: likewise, its sort column comes from the paging parameters. The model pages the name-ordered listing of `GetTagsAsync`.
- GetPagedTagsByName: likewise, the order of `GetPagedTagsAsync(pagingParams, name)` (`TagRepository.cs:92-107`) comes from the paging parameters. The model pages the matching tags in table order and proves no order.
- GetPagedTagsMapped: the mapper is an arbitrary function supplied by the caller. Its output is opaque, so nothing is said about the items beyond their position in that output. `ToPagedListAsync(pagingParams)` (`TagRepository.cs:81`) also orders that output by the paging parameters' sort column. The model does not apply that order and pages the output in the mapper's own order.
- GetPagedPosts: posts with equal PostedDate (equal to the tick) keep table order, because the model's sort is stable. The contract fixes that order, which is one of the orders the store may return. The store's order among equal dates is unspecified, so the store may page such ties differently.
- GetPagedTagsByQuery: likewise, tags with equal Name keep table order. The contract fixes that order, which is one of the orders the store may return for `ORDER BY Name DESC`.
- GetPopularArticlesIsTop: a negative count reaches `Take` as SQL Server `TOP` with a negative value, which the store rejects with an error. The model returns an empty list instead.
- IncreaseViewCount is one sequential update. The atomicity of `ExecuteUpdateAsync` under concurrent requests is not modelled.
- IncreaseViewCount: ViewCount is an unbounded `int`. The column is a fixed-width integer, and at its maximum `ViewCount + 1` makes SQL Server raise an arithmetic-overflow error and leave the row unchanged. The model adds one regardless. The same holds for `AddView` and `ViewCountIncreased`.
- DeleteTag does not model the cascade to the post-tag link table.
- CreateOrUpdateTag: a tag with a negative key is modelled as an insert under the next identity value. An explicit negative key that the store would reject is not modelled, and neither is a save that affects no row for other reasons.
- The stored post and the slug lookup used by `PostValidator` are parameters. `GetPostByIdAsync` is not part of this model.
- `PostEditModel.GetSelectedTags` is not part of this model. The form carries the already-split list of tag names.
- The validator's messages are not modelled, and neither are FluentValidation's cascade settings. Every failing rule is reported, as FluentValidation does by default.
- HTTP endpoints, controllers, mapping configuration, the data seeder and the React front end are outside the modelled core.

## Findings

| source | as written | input that shows it | evidently intended | confidence | as-written member | corrected member |
|---|---|---|---|---|---|---|
| src/TipsAndTricks/TatBlog.Services/Blogs/TagRepository.cs:150-153 | The tag slug check searches the Categories table. The tag endpoints use it to refuse a duplicate tag slug (`TagEndpoints.cs:116`, `:149`). | Tags `[Tag(1, "Dafny", "dafny", "")]` and no categories: adding `Tag(2, "Dafny 4", "dafny", "")` passes the check, and two tags then share a slug. | Search the Tags table for another tag (a different Id) with the slug. | not executed; follows from the query text | TagRepository.IsTagSlugExistMissesTags | TagRepository.AddAfterTagSlugCheck |
