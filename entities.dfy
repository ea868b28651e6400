/**
 * The blog's records as the repositories see them once the navigation
 * properties are loaded, the DTO projections the listings return, and the
 * string tests the filters use (blank, substring, name order).
 */
module Entities {
  import opened Linq

  /**
   * A point in time down to the 100-nanosecond tick, as `DateTime.Now`
   * stamps it; `ticks` is the part below the second. Only Year, Month and
   * the ordering are ever used.
   */
  datatype DateTime = DateTime(year: int, month: int, day: int, hour: int, minute: int, second: int, ticks: int)

  datatype Author = Author(id: int, fullName: string, urlSlug: string, email: string)

  datatype Category = Category(id: int, name: string, urlSlug: string, description: string, showOnMenu: bool)

  datatype Tag = Tag(id: int, name: string, urlSlug: string, description: string)

  /**
   * A post with its Category, Author and Tags loaded. `imageUrl` is "" when
   * the column is null.
   */
  datatype Post = Post(
    id: int,
    title: string,
    shortDescription: string,
    description: string,
    meta: string,
    urlSlug: string,
    imageUrl: string,
    published: bool,
    postedDate: DateTime,
    viewCount: int,
    categoryId: int,
    category: Category,
    authorId: int,
    author: Author,
    tags: seq<Tag>)

  datatype CategoryItem = CategoryItem(id: int, name: string, urlSlug: string, description: string, showOnMenu: bool, postCount: nat)

  datatype TagItem = TagItem(id: int, name: string, urlSlug: string, description: string, postCount: nat)

  // ---------------------------------------------------------------------
  // Strings

  /** `char.IsWhiteSpace`: the separator characters and the control characters U+0009..U+000D, U+0085. */
  predicate IsWhiteSpace(c: char)
  {
    || c == ' '
    || ('\t' <= c <= '\r')
    || c == '\U{0085}'
    || c == '\U{00A0}'
    || c == '\U{1680}'
    || ('\U{2000}' <= c <= '\U{200A}')
    || c == '\U{2028}'
    || c == '\U{2029}'
    || c == '\U{202F}'
    || c == '\U{205F}'
    || c == '\U{3000}'
  }

  /** `string.IsNullOrWhiteSpace` (a null string is modelled as ""). */
  predicate IsBlank(s: string)
  {
    forall i :: 0 <= i < |s| ==> IsWhiteSpace(s[i])
  }

  predicate OccursAt(s: string, sub: string, i: int)
  {
    0 <= i && i + |sub| <= |s| && s[i..i + |sub|] == sub
  }

  /** `s.Contains(sub)`: ordinal substring test. */
  predicate Contains(s: string, sub: string)
  {
    exists i :: 0 <= i <= |s| && OccursAt(s, sub, i)
  }

  /** Ordinal lexicographic order on strings (`OrderBy(x => x.Name)`). */
  predicate StrLe(a: string, b: string)
  {
    a == [] || (b != [] && (a[0] < b[0] || (a[0] == b[0] && StrLe(a[1..], b[1..]))))
  }

  lemma {:induction false} StrLeTotal(a: string, b: string)
    ensures StrLe(a, b) || StrLe(b, a)
  {
    if a != [] && b != [] && a[0] == b[0] {
      StrLeTotal(a[1..], b[1..]);
    }
  }

  lemma {:induction false} StrLeTransitive(a: string, b: string, c: string)
    requires StrLe(a, b) && StrLe(b, c)
    ensures StrLe(a, c)
  {
    if a != [] && b != [] && c != [] && a[0] == b[0] && b[0] == c[0] {
      StrLeTransitive(a[1..], b[1..], c[1..]);
    }
  }

  /** StrLe is antisymmetric: two names ordered both ways are equal. */
  lemma {:induction false} StrLeAntisymmetric(a: string, b: string)
    requires StrLe(a, b) && StrLe(b, a)
    ensures a == b
  {
    if a != [] && b != [] {
      StrLeAntisymmetric(a[1..], b[1..]);
      assert a == [a[0]] + a[1..] && b == [b[0]] + b[1..];
    }
  }

  /** Lexicographic order on (year, month, day, hour, minute, second, ticks). */
  predicate DateLe(a: DateTime, b: DateTime)
  {
    if a.year != b.year then a.year < b.year
    else if a.month != b.month then a.month < b.month
    else if a.day != b.day then a.day < b.day
    else if a.hour != b.hour then a.hour < b.hour
    else if a.minute != b.minute then a.minute < b.minute
    else if a.second != b.second then a.second < b.second
    else a.ticks <= b.ticks
  }

  // ---------------------------------------------------------------------
  // Navigation counts and projections

  /** `c.Posts.Count(p => p.Published)`: Category.Posts are the posts whose CategoryId is the category's. */
  function PublishedInCategory(posts: seq<Post>, categoryId: int): nat
  {
    Count(posts, (p: Post) => p.categoryId == categoryId && p.published)
  }

  /** `t.Posts.Count(p => p.Published)`: Tag.Posts are the posts carrying a tag with the tag's Id. */
  function PublishedWithTag(posts: seq<Post>, tagId: int): nat
  {
    Count(posts, (p: Post) => p.published && Any(p.tags, (u: Tag) => u.id == tagId))
  }

  function CategoryItemOf(posts: seq<Post>): Category -> CategoryItem
  {
    (c: Category) => CategoryItem(c.id, c.name, c.urlSlug, c.description, c.showOnMenu, PublishedInCategory(posts, c.id))
  }

  function TagItemOf(posts: seq<Post>): Tag -> TagItem
  {
    (t: Tag) => TagItem(t.id, t.name, t.urlSlug, t.description, PublishedWithTag(posts, t.id))
  }
}
