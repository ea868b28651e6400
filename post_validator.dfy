/**
 * PostValidator: the rules the admin edit form checks before a post is
 * saved. Each rule either holds or contributes one failure, and the rules
 * are checked in the order they are declared. The two store lookups the
 * rules make (the slug check and the stored post) are parameters: the post
 * table and the stored post.
 */
module PostValidator {
  import opened Linq
  import opened Entities
  import opened BlogRepository

  const MaxTitleLength := 500
  const MaxMetaLength := 1000
  const MaxUrlSlugLength := 1000

  /**
   * The edit form. `selectedTags` is the already-split list of tag names;
   * `imageFile` is the length of the uploaded file, `None` when no file
   * was chosen.
   */
  datatype PostEditModel = PostEditModel(
    id: int,
    title: string,
    shortDescription: string,
    description: string,
    meta: string,
    urlSlug: string,
    categoryId: int,
    authorId: int,
    selectedTags: seq<string>,
    imageFile: Option<int>)

  /** One failed rule, in declaration order. */
  datatype Failure =
    | TitleEmpty
    | TitleTooLong
    | ShortDescriptionEmpty
    | DescriptionEmpty
    | MetaEmpty
    | MetaTooLong
    | UrlSlugEmpty
    | UrlSlugTooLong
    | UrlSlugInUse
    | CategoryMissing
    | AuthorMissing
    | NoTagSelected
    | ImageMissing

  const RuleCount := 13

  /** The position of a rule among the declared rules, from 1. */
  function Rank(f: Failure): (n: nat)
    ensures 1 <= n <= RuleCount
  {
    match f
    case TitleEmpty => 1
    case TitleTooLong => 2
    case ShortDescriptionEmpty => 3
    case DescriptionEmpty => 4
    case MetaEmpty => 5
    case MetaTooLong => 6
    case UrlSlugEmpty => 7
    case UrlSlugTooLong => 8
    case UrlSlugInUse => 9
    case CategoryMissing => 10
    case AuthorMissing => 11
    case NoTagSelected => 12
    case ImageMissing => 13
  }

  /** The `n`-th declared rule. */
  function RuleAt(n: nat): (f: Failure)
    requires 1 <= n <= RuleCount
    ensures Rank(f) == n
  {
    match n
    case 1 => TitleEmpty
    case 2 => TitleTooLong
    case 3 => ShortDescriptionEmpty
    case 4 => DescriptionEmpty
    case 5 => MetaEmpty
    case 6 => MetaTooLong
    case 7 => UrlSlugEmpty
    case 8 => UrlSlugTooLong
    case 9 => UrlSlugInUse
    case 10 => CategoryMissing
    case 11 => AuthorMissing
    case 12 => NoTagSelected
    case _ => ImageMissing
  }

  /** `HasAtLeastOneTag`: the form names some tag. */
  predicate HasAtLeastOneTag(m: PostEditModel)
  {
    |m.selectedTags| > 0
  }

  /** A file was chosen and it is not empty. */
  predicate HasImageFile(imageFile: Option<int>)
  {
    imageFile.Some? && imageFile.value > 0
  }

  /**
   * `SetImageIfNotExist`: a stored post with an image needs no file;
   * otherwise (no stored post, or a blank ImageUrl) a non-empty file is
   * required.
   */
  predicate SetImageIfNotExist(storedPost: Option<Post>, imageFile: Option<int>)
  {
    if storedPost.Some? && !IsBlank(storedPost.value.imageUrl) then true
    else HasImageFile(imageFile)
  }

  /** The image rule: a new post needs a file, an existing one defers to SetImageIfNotExist. */
  predicate ImageRuleHolds(m: PostEditModel, storedPost: Option<Post>)
  {
    if m.id <= 0 then HasImageFile(m.imageFile)
    else SetImageIfNotExist(storedPost, m.imageFile)
  }

  /** Whether rule `f` fails on the form. NotEmpty on text rejects blank text, on a key rejects 0. */
  predicate Fails(f: Failure, m: PostEditModel, posts: seq<Post>, storedPost: Option<Post>)
  {
    match f
    case TitleEmpty => IsBlank(m.title)
    case TitleTooLong => |m.title| > MaxTitleLength
    case ShortDescriptionEmpty => IsBlank(m.shortDescription)
    case DescriptionEmpty => IsBlank(m.description)
    case MetaEmpty => IsBlank(m.meta)
    case MetaTooLong => |m.meta| > MaxMetaLength
    case UrlSlugEmpty => IsBlank(m.urlSlug)
    case UrlSlugTooLong => |m.urlSlug| > MaxUrlSlugLength
    case UrlSlugInUse => IsPostSlugExisted(posts, m.id, m.urlSlug)
    case CategoryMissing => m.categoryId == 0
    case AuthorMissing => m.authorId == 0
    case NoTagSelected => !HasAtLeastOneTag(m)
    case ImageMissing => !ImageRuleHolds(m, storedPost)
  }

  /** The failures of the first `n` declared rules, in declaration order. */
  function CheckFirst(m: PostEditModel, posts: seq<Post>, storedPost: Option<Post>, n: nat): (r: seq<Failure>)
    requires n <= RuleCount
    ensures forall f :: f in r <==> Rank(f) <= n && Fails(f, m, posts, storedPost)
    ensures forall i, j :: 0 <= i < j < |r| ==> Rank(r[i]) < Rank(r[j])
    ensures forall i :: 0 <= i < |r| ==> Rank(r[i]) <= n
  {
    if n == 0 then []
    else
      var f := RuleAt(n);
      CheckFirst(m, posts, storedPost, n - 1) + (if Fails(f, m, posts, storedPost) then [f] else [])
  }

  /** The validator: every failing rule, each once, in declaration order. */
  function Validate(m: PostEditModel, posts: seq<Post>, storedPost: Option<Post>): (r: seq<Failure>)
    ensures forall f :: f in r <==> Fails(f, m, posts, storedPost)
    ensures forall i, j :: 0 <= i < j < |r| ==> Rank(r[i]) < Rank(r[j])
  {
    CheckFirst(m, posts, storedPost, RuleCount)
  }

  /** Every rule, written out field by field. */
  predicate AllRulesHold(m: PostEditModel, posts: seq<Post>, storedPost: Option<Post>)
  {
    && !IsBlank(m.title) && |m.title| <= 500
    && !IsBlank(m.shortDescription)
    && !IsBlank(m.description)
    && !IsBlank(m.meta) && |m.meta| <= 1000
    && !IsBlank(m.urlSlug) && |m.urlSlug| <= 1000
    && (forall p :: p in posts ==> p.id == m.id || p.urlSlug != m.urlSlug)
    && m.categoryId != 0
    && m.authorId != 0
    && |m.selectedTags| > 0
    && (m.id <= 0 ==> m.imageFile.Some? && m.imageFile.value > 0)
    && (m.id > 0 ==>
          (storedPost.Some? && !IsBlank(storedPost.value.imageUrl))
          || (m.imageFile.Some? && m.imageFile.value > 0))
  }

  /** The form is accepted exactly when every rule, written out, holds. */
  lemma AcceptedIff(m: PostEditModel, posts: seq<Post>, storedPost: Option<Post>)
    ensures Validate(m, posts, storedPost) == [] <==> AllRulesHold(m, posts, storedPost)
  {
    var r := Validate(m, posts, storedPost);
    if r != [] {
      RuleFailureBreaksAll(r[0], m, posts, storedPost);
    } else {
      NoFailureHoldsAll(m, posts, storedPost);
    }
  }

  lemma RuleFailureBreaksAll(f: Failure, m: PostEditModel, posts: seq<Post>, storedPost: Option<Post>)
    requires Fails(f, m, posts, storedPost)
    ensures !AllRulesHold(m, posts, storedPost)
  {
    if f == UrlSlugInUse {
      var p :| p in posts && p.id != m.id && p.urlSlug == m.urlSlug;
    }
  }

  lemma NoFailureHoldsAll(m: PostEditModel, posts: seq<Post>, storedPost: Option<Post>)
    requires forall f :: !Fails(f, m, posts, storedPost)
    ensures AllRulesHold(m, posts, storedPost)
  {
    assert !Fails(TitleEmpty, m, posts, storedPost) && !Fails(TitleTooLong, m, posts, storedPost);
    assert !Fails(ShortDescriptionEmpty, m, posts, storedPost) && !Fails(DescriptionEmpty, m, posts, storedPost);
    assert !Fails(MetaEmpty, m, posts, storedPost) && !Fails(MetaTooLong, m, posts, storedPost);
    assert !Fails(UrlSlugEmpty, m, posts, storedPost) && !Fails(UrlSlugTooLong, m, posts, storedPost);
    assert !Fails(UrlSlugInUse, m, posts, storedPost);
    assert !Fails(CategoryMissing, m, posts, storedPost) && !Fails(AuthorMissing, m, posts, storedPost);
    assert !Fails(NoTagSelected, m, posts, storedPost) && !Fails(ImageMissing, m, posts, storedPost);
  }

  /** A new post without a non-empty file fails the image rule, whatever is stored. */
  lemma NewPostNeedsImageFile(m: PostEditModel, posts: seq<Post>, storedPost: Option<Post>)
    requires m.id <= 0
    ensures ImageMissing in Validate(m, posts, storedPost) <==> m.imageFile.None? || m.imageFile.value <= 0
  {
    assert Fails(ImageMissing, m, posts, storedPost) <==> !HasImageFile(m.imageFile);
  }

  /**
   * An existing post passes the image rule when its stored ImageUrl is not
   * blank, with or without a file; when it has no image, only a non-empty
   * file passes.
   */
  lemma ExistingImageWaivesFile(m: PostEditModel, posts: seq<Post>, storedPost: Option<Post>)
    requires m.id > 0
    ensures storedPost.Some? && !IsBlank(storedPost.value.imageUrl) ==>
      ImageMissing !in Validate(m, posts, storedPost)
    ensures (storedPost.None? || IsBlank(storedPost.value.imageUrl)) ==>
      (ImageMissing in Validate(m, posts, storedPost) <==> m.imageFile.None? || m.imageFile.value <= 0)
  {
    assert Fails(ImageMissing, m, posts, storedPost) <==> !SetImageIfNotExist(storedPost, m.imageFile);
  }

  /** Re-saving a post under the slug it already has is never a slug conflict. */
  lemma OwnSlugPasses(m: PostEditModel, posts: seq<Post>, storedPost: Option<Post>, p: Post)
    requires UniqueSlugs(posts) && p in posts
    requires m.id == p.id && m.urlSlug == p.urlSlug
    ensures UrlSlugInUse !in Validate(m, posts, storedPost)
  {
    OwnSlugIsNoConflict(posts, p);
  }

  /** Saving an accepted form over the stored post with its Id keeps the slugs unique. */
  lemma AcceptedUpdateKeepsSlugsUnique(m: PostEditModel, posts: seq<Post>, storedPost: Option<Post>, p: Post)
    requires UniqueSlugs(posts) && UniqueIds(posts)
    requires p.id == m.id && p.urlSlug == m.urlSlug
    requires Validate(m, posts, storedPost) == []
    ensures UniqueSlugs(ReplacePost(posts, p))
  {
    assert !Fails(UrlSlugInUse, m, posts, storedPost);
    UpdateAfterSlugCheck(posts, p);
  }

  /**
   * Adding an accepted new post (its form key is not positive, the stored
   * keys are) under a fresh key keeps the slugs unique.
   */
  lemma AcceptedNewPostKeepsSlugsUnique(m: PostEditModel, posts: seq<Post>, storedPost: Option<Post>, p: Post)
    requires UniqueSlugs(posts)
    requires forall x :: x in posts ==> x.id > 0 && x.id != p.id
    requires m.id <= 0 && p.urlSlug == m.urlSlug
    requires Validate(m, posts, storedPost) == []
    ensures UniqueSlugs(posts + [p])
  {
    assert !Fails(UrlSlugInUse, m, posts, storedPost);
    assert !IsPostSlugExisted(posts, p.id, p.urlSlug);
    InsertAfterSlugCheck(posts, p);
  }
}
