/** The post-query layer of src/lib/blog.ts over a post list passed in:
    loading order, category and tag counts, the filters, related posts and
    pagination. */
module Blog {
  import opened Wrappers
  import opened Text
  import opened Seqs
  import opened Slug
  import opened ReadingTime
  import opened BlogTypes

  // ----- getAllPostsMeta -------------------------------------------------

  /** `fileName.endsWith('.md')`. */
  predicate IsMarkdownName(name: string) {
    EndsWith(name, ".md")
  }

  /** `fileName.replace(/\.md$/, '')`: the slug is the file name without
      its extension. */
  function SlugOfFileName(name: string): (slug: string)
    requires IsMarkdownName(name)
    ensures slug + ".md" == name
  {
    name[..|name| - 3]
  }

  /** The record built for one markdown file (`tags || []`). */
  function PostFromFile(f: PostFile): (p: PostMeta)
    requires IsMarkdownName(f.name)
    ensures p.slug + ".md" == f.name
    ensures p.readingTime >= 1
  {
    PostMeta(
      SlugOfFileName(f.name), f.data.title, f.data.date, f.data.excerpt, f.data.category,
      match f.data.tags case Some(ts) => ts case None => [],
      f.data.author, CalculateReadingTime(f.content))
  }

  predicate IsMarkdownFile(f: PostFile) {
    IsMarkdownName(f.name)
  }

  function MarkdownFiles(files: seq<PostFile>): (md: seq<PostFile>)
    ensures forall f :: f in md ==> f in files && IsMarkdownName(f.name)
  {
    Filter(files, IsMarkdownFile)
  }

  function PostsOf(md: seq<PostFile>): (posts: seq<PostMeta>)
    requires forall f :: f in md ==> IsMarkdownName(f.name)
    ensures |posts| == |md|
    ensures forall i :: 0 <= i < |md| ==> posts[i] == PostFromFile(md[i])
  {
    seq(|md|, i requires 0 <= i < |md| => PostFromFile(md[i]))
  }

  /** Newest first: no post's date string is `<` its successor's. */
  ghost predicate NewestFirst(s: seq<PostMeta>) {
    |s| < 2 || (!LexLess(s[0].date, s[1].date) && NewestFirst(s[1..]))
  }

  /** One insertion step of a sort with the comparator
      `(a, b) => (a.date < b.date ? 1 : -1)`: `p` goes after every post whose
      date it is `<`. */
  function InsertByDate(p: PostMeta, s: seq<PostMeta>): (r: seq<PostMeta>)
    ensures multiset(r) == multiset(s) + multiset{p}
  {
    if s != [] && LexLess(p.date, s[0].date) then
      assert s == [s[0]] + s[1..];
      [s[0]] + InsertByDate(p, s[1..])
    else [p] + s
  }

  /** Inserting into a newest-first list keeps it newest first. */
  lemma {:induction false} InsertKeepsNewestFirst(p: PostMeta, s: seq<PostMeta>)
    requires NewestFirst(s)
    ensures NewestFirst(InsertByDate(p, s))
    ensures InsertByDate(p, s)[0] == p || (s != [] && InsertByDate(p, s)[0] == s[0])
  {
    var r := InsertByDate(p, s);
    if s != [] && LexLess(p.date, s[0].date) {
      var rest := InsertByDate(p, s[1..]);
      InsertKeepsNewestFirst(p, s[1..]);
      LexLessAsymmetric(p.date, s[0].date);
      assert r == [s[0]] + rest && r[1..] == rest;
    } else {
      assert r[1..] == s;
    }
  }

  /** The date sort of `getAllPostsMeta`; which of two posts with equal
      dates comes first is not specified. */
  function SortByDate(s: seq<PostMeta>): (r: seq<PostMeta>)
    ensures multiset(r) == multiset(s)
    ensures NewestFirst(r)
  {
    if s == [] then []
    else
      assert s == [s[0]] + s[1..];
      InsertKeepsNewestFirst(s[0], SortByDate(s[1..]));
      InsertByDate(s[0], SortByDate(s[1..]))
  }

  /** In a newest-first list no date is `<` a later one. */
  lemma {:induction false} NewestFirstAllPairs(s: seq<PostMeta>, i: nat, j: nat)
    requires NewestFirst(s) && i < j < |s|
    ensures !LexLess(s[i].date, s[j].date)
    decreases j - i
  {
    if i + 1 < j {
      NewestFirstAllPairs(s, i + 1, j);
      NewestFirstStep(s, i);
      NotLessTransitive(s[i].date, s[i + 1].date, s[j].date);
    } else {
      NewestFirstStep(s, i);
    }
  }

  lemma {:induction false} NewestFirstStep(s: seq<PostMeta>, i: nat)
    requires NewestFirst(s) && i + 1 < |s|
    ensures !LexLess(s[i].date, s[i + 1].date)
  {
    if i > 0 {
      NewestFirstStep(s[1..], i - 1);
    }
  }

  /** `getAllPostsMeta` over the directory listing passed in: one record per
      `.md` file, newest first. */
  function GetAllPostsMeta(files: seq<PostFile>): (posts: seq<PostMeta>)
    ensures multiset(posts) == multiset(PostsOf(MarkdownFiles(files)))
    ensures NewestFirst(posts)
  {
    SortByDate(PostsOf(MarkdownFiles(files)))
  }

  /** A record of `getAllPostsMeta` comes from a `.md` file of the listing,
      named after its slug. */
  lemma PostComesFromFile(files: seq<PostFile>, p: PostMeta)
    requires p in GetAllPostsMeta(files)
    ensures exists f :: f in files && IsMarkdownName(f.name) && p == PostFromFile(f) && f.name == p.slug + ".md"
  {
    var md := MarkdownFiles(files);
    SortedPostIsLoaded(files, p);
    var i := IndexOfPost(md, p);
    MarkdownFileAt(files, md, i);
  }

  lemma SortedPostIsLoaded(files: seq<PostFile>, p: PostMeta)
    requires p in GetAllPostsMeta(files)
    ensures p in PostsOf(MarkdownFiles(files))
  {
    assert p in multiset(GetAllPostsMeta(files));
  }

  lemma IndexOfPost(md: seq<PostFile>, p: PostMeta) returns (i: nat)
    requires forall f :: f in md ==> IsMarkdownName(f.name)
    requires p in PostsOf(md)
    ensures i < |md| && PostsOf(md)[i] == p
  {
    i :| 0 <= i < |md| && PostsOf(md)[i] == p;
  }

  lemma MarkdownFileAt(files: seq<PostFile>, md: seq<PostFile>, i: nat)
    requires md == MarkdownFiles(files) && i < |md|
    ensures md[i] in files && IsMarkdownName(md[i].name)
    ensures PostsOf(md)[i] == PostFromFile(md[i]) && md[i].name == PostsOf(md)[i].slug + ".md"
  {
    assert md[i] in md;
  }

  /** Every `.md` file of the listing gives its record. */
  lemma FileGivesPost(files: seq<PostFile>, f: PostFile)
    requires f in files && IsMarkdownName(f.name)
    ensures PostFromFile(f) in GetAllPostsMeta(files)
  {
    var md := MarkdownFiles(files);
    FilterKeeps(files, IsMarkdownFile, f);
    var i :| 0 <= i < |md| && md[i] == f;
    assert PostsOf(md)[i] == PostFromFile(f);
    assert PostFromFile(f) in multiset(GetAllPostsMeta(files));
  }

  // ----- getAllCategories, getAllTags ------------------------------------

  /** The category of each post, in list order. */
  function CategoryNames(posts: seq<PostMeta>): (names: seq<string>)
    ensures |names| == |posts|
    ensures forall i :: 0 <= i < |posts| ==> names[i] == posts[i].category
  {
    seq(|posts|, i requires 0 <= i < |posts| => posts[i].category)
  }

  /** Every tag of every post, in list order, repeats included. */
  function TagNames(posts: seq<PostMeta>): seq<string>
  {
    if posts == [] then [] else TagNames(posts[..|posts| - 1]) + posts[|posts| - 1].tags
  }

  /** The state of a JavaScript `Map<string, number>` after counting
      `seen`: its keys in insertion order and the count under each. */
  ghost predicate Tallies(keys: seq<string>, counts: map<string, nat>, seen: seq<string>) {
    keys == Distinct(seen)
    && (forall k :: k in counts <==> k in keys)
    && (forall k :: k in counts ==> counts[k] == multiset(seen)[k])
  }

  /** `map.set(name, (map.get(name) || 0) + 1)`: counts one more `name`;
      a name not yet in the map becomes its last key. */
  method Record(keys: seq<string>, counts: map<string, nat>, ghost seen: seq<string>, name: string)
    returns (keys': seq<string>, counts': map<string, nat>)
    requires Tallies(keys, counts, seen)
    ensures Tallies(keys', counts', seen + [name])
  {
    var count := if name in counts then counts[name] else 0;
    keys' := keys;
    if name !in counts {
      keys' := keys + [name];
    }
    counts' := counts[name := count + 1];
    DistinctSnoc(seen, name);
    assert multiset(seen + [name]) == multiset(seen) + multiset{name};
  }

  /** `getAllCategories`: one entry per distinct category, in order of first
      appearance, counting the posts filed under it. */
  method GetAllCategories(posts: seq<PostMeta>) returns (categories: seq<Category>)
    ensures var names := CategoryNames(posts); var d := Distinct(names);
      |categories| == |d|
      && forall i :: 0 <= i < |d| ==>
        categories[i] == Category(d[i], Slugify(d[i]), multiset(names)[d[i]])
  {
    var keys: seq<string> := [];
    var counts: map<string, nat> := map[];
    var i := 0;
    ghost var counted: seq<string> := [];
    while i < |posts|
      invariant 0 <= i <= |posts|
      invariant counted == CategoryNames(posts[..i])
      invariant Tallies(keys, counts, counted)
    {
      keys, counts := Record(keys, counts, counted, posts[i].category);
      CategoryNamesStep(posts, i);
      counted := counted + [posts[i].category];
      i := i + 1;
    }
    assert posts[..i] == posts;
    assert counted == CategoryNames(posts);
    TallyEntries(keys, counts, counted);
    categories := seq(|keys|, j requires 0 <= j < |keys| => Category(keys[j], Slugify(keys[j]), counts[keys[j]]));
  }

  lemma CategoryNamesStep(posts: seq<PostMeta>, i: nat)
    requires i < |posts|
    ensures CategoryNames(posts[..i + 1]) == CategoryNames(posts[..i]) + [posts[i].category]
  {
  }

  /** The map's entries, read back in key order. */
  lemma TallyEntries(keys: seq<string>, counts: map<string, nat>, seen: seq<string>)
    requires Tallies(keys, counts, seen)
    ensures |keys| == |Distinct(seen)|
    ensures forall j :: 0 <= j < |keys| ==>
      keys[j] == Distinct(seen)[j] && keys[j] in counts && counts[keys[j]] == multiset(seen)[keys[j]]
  {
  }

  lemma PrefixStep(seen: seq<string>, names: seq<string>, j: nat)
    requires j < |names|
    ensures seen + names[..j + 1] == (seen + names[..j]) + [names[j]]
  {
    assert names[..j + 1] == names[..j] + [names[j]];
  }

  /** The inner `post.tags.forEach` of `getAllTags`: counts each of
      `names` into the map. */
  method CountInto(keys: seq<string>, counts: map<string, nat>, ghost seen: seq<string>, names: seq<string>)
    returns (keys': seq<string>, counts': map<string, nat>)
    requires Tallies(keys, counts, seen)
    ensures Tallies(keys', counts', seen + names)
  {
    keys', counts' := keys, counts;
    var j := 0;
    ghost var counted := seen;
    while j < |names|
      invariant 0 <= j <= |names|
      invariant counted == seen + names[..j]
      invariant Tallies(keys', counts', counted)
    {
      keys', counts' := Record(keys', counts', counted, names[j]);
      PrefixStep(seen, names, j);
      counted := counted + [names[j]];
      j := j + 1;
    }
    assert names[..j] == names;
    assert counted == seen + names;
  }

  /** `getAllTags`: one entry per distinct tag, in order of first appearance,
      counting every occurrence across all posts. */
  method GetAllTags(posts: seq<PostMeta>) returns (tags: seq<Tag>)
    ensures var names := TagNames(posts); var d := Distinct(names);
      |tags| == |d|
      && forall i :: 0 <= i < |d| ==> tags[i] == Tag(d[i], Slugify(d[i]), multiset(names)[d[i]])
  {
    var keys: seq<string> := [];
    var counts: map<string, nat> := map[];
    var i := 0;
    ghost var counted: seq<string> := [];
    while i < |posts|
      invariant 0 <= i <= |posts|
      invariant counted == TagNames(posts[..i])
      invariant Tallies(keys, counts, counted)
    {
      keys, counts := CountInto(keys, counts, counted, posts[i].tags);
      TagNamesStep(posts, i);
      counted := counted + posts[i].tags;
      i := i + 1;
    }
    assert posts[..i] == posts;
    assert counted == TagNames(posts);
    TallyEntries(keys, counts, counted);
    tags := seq(|keys|, j requires 0 <= j < |keys| => Tag(keys[j], Slugify(keys[j]), counts[keys[j]]));
  }

  lemma TagNamesStep(posts: seq<PostMeta>, i: nat)
    requires i < |posts|
    ensures TagNames(posts[..i + 1]) == TagNames(posts[..i]) + posts[i].tags
  {
    assert posts[..i + 1][..i] == posts[..i];
  }

  /** Every post is counted under exactly one category. */
  lemma CategoryCountsSumToPosts(posts: seq<PostMeta>)
    ensures SumCounts(Distinct(CategoryNames(posts)), CategoryNames(posts)) == |posts|
  {
    DistinctCountsSum(CategoryNames(posts));
  }

  /** Each listed category or tag has at least one occurrence. */
  lemma ListedNamesOccur(names: seq<string>, i: nat)
    requires i < |Distinct(names)|
    ensures multiset(names)[Distinct(names)[i]] >= 1
  {
    assert Distinct(names)[i] in names;
  }

  /** Total length of the posts' `tags` lists. */
  function TagTotal(posts: seq<PostMeta>): nat
  {
    if posts == [] then 0 else TagTotal(posts[..|posts| - 1]) + |posts[|posts| - 1].tags|
  }

  /** Occurrences of `tag` in each post's list, summed over the posts. */
  function TagOccurrences(posts: seq<PostMeta>, tag: string): nat
  {
    if posts == [] then 0
    else TagOccurrences(posts[..|posts| - 1], tag) + multiset(posts[|posts| - 1].tags)[tag]
  }

  /** The tag counts add up to the total length of the `tags` lists. */
  lemma {:induction false} TagCountsSumToTagTotal(posts: seq<PostMeta>)
    ensures SumCounts(Distinct(TagNames(posts)), TagNames(posts)) == TagTotal(posts)
  {
    DistinctCountsSum(TagNames(posts));
    TagNamesLength(posts);
  }

  lemma {:induction false} TagNamesLength(posts: seq<PostMeta>)
    ensures |TagNames(posts)| == TagTotal(posts)
  {
    if posts != [] { TagNamesLength(posts[..|posts| - 1]); }
  }

  /** A tag's count is the sum of its occurrences per post: a tag listed
      twice in one post counts twice. */
  lemma {:induction false} TagCountIsPerPostSum(posts: seq<PostMeta>, tag: string)
    ensures multiset(TagNames(posts))[tag] == TagOccurrences(posts, tag)
  {
    if posts != [] { TagCountIsPerPostSum(posts[..|posts| - 1], tag); }
  }

  // ----- getPostsByCategory, getPostsByTag, searchPosts ------------------

  /** `slugify(post.category) === category`. */
  predicate InCategory(p: PostMeta, category: string) {
    Slugify(p.category) == category
  }

  function CategoryFilter(category: string): PostMeta -> bool {
    (p: PostMeta) => InCategory(p, category)
  }

  /** `getPostsByCategory`: the posts whose category slug is `category`,
      in list order. */
  function GetPostsByCategory(posts: seq<PostMeta>, category: string): (r: seq<PostMeta>)
    ensures IsSubseq(r, posts)
    ensures forall p :: multiset(r)[p] == if Slugify(p.category) == category then multiset(posts)[p] else 0
  {
    FilterIsSubseq(posts, CategoryFilter(category));
    FilterCount(posts, CategoryFilter(category));
    Filter(posts, CategoryFilter(category))
  }

  /** `post.tags.some(postTag => slugify(postTag) === tag)`. */
  predicate HasTag(p: PostMeta, tag: string) {
    exists t :: t in p.tags && Slugify(t) == tag
  }

  function TagFilter(tag: string): PostMeta -> bool {
    (p: PostMeta) => HasTag(p, tag)
  }

  /** `getPostsByTag`: the posts with a tag whose slug is `tag`, in list
      order. */
  function GetPostsByTag(posts: seq<PostMeta>, tag: string): (r: seq<PostMeta>)
    ensures IsSubseq(r, posts)
    ensures forall p :: multiset(r)[p] == if HasTag(p, tag) then multiset(posts)[p] else 0
  {
    FilterIsSubseq(posts, TagFilter(tag));
    FilterCount(posts, TagFilter(tag));
    Filter(posts, TagFilter(tag))
  }

  /** The test of `searchPosts` with the query already lower-cased: it
      occurs in the lower-cased title, excerpt, some tag or category. */
  predicate MatchesQuery(p: PostMeta, q: string) {
    Includes(Lower(p.title), q)
    || Includes(Lower(p.excerpt), q)
    || (exists t :: t in p.tags && Includes(Lower(t), q))
    || Includes(Lower(p.category), q)
  }

  function QueryFilter(q: string): PostMeta -> bool {
    (p: PostMeta) => MatchesQuery(p, q)
  }

  /** `searchPosts`: case-insensitive substring search over title, excerpt,
      tags and category, in list order. */
  function SearchPosts(posts: seq<PostMeta>, query: string): (r: seq<PostMeta>)
    ensures IsSubseq(r, posts)
    ensures forall p :: multiset(r)[p] == if MatchesQuery(p, Lower(query)) then multiset(posts)[p] else 0
  {
    FilterIsSubseq(posts, QueryFilter(Lower(query)));
    FilterCount(posts, QueryFilter(Lower(query)));
    Filter(posts, QueryFilter(Lower(query)))
  }

  /** The empty query matches every post. */
  lemma SearchEmptyQueryReturnsAll(posts: seq<PostMeta>)
    ensures SearchPosts(posts, "") == posts
  {
    assert Lower("") == "";
    forall p | p in posts ensures QueryFilter("")(p) {
      IncludesEmpty(Lower(p.title));
    }
    FilterAll(posts, QueryFilter(""));
  }

  /** The case of the query's ASCII letters does not matter. */
  lemma SearchIgnoresQueryCase(posts: seq<PostMeta>, query: string)
    ensures SearchPosts(posts, Lower(query)) == SearchPosts(posts, query)
  {
    LowerIdempotent(query);
  }

  /** A category that is not itself a slug (a Chinese name such as
      `技术`, say) matches no post: every category slug is a slug. */
  lemma NonSlugCategoryMatchesNothing(posts: seq<PostMeta>, category: string)
    requires !IsSlug(category)
    ensures GetPostsByCategory(posts, category) == []
  {
    FilterNone(posts, CategoryFilter(category));
  }

  /** A tag that is not itself a slug matches no post. */
  lemma NonSlugTagMatchesNothing(posts: seq<PostMeta>, tag: string)
    requires !IsSlug(tag)
    ensures GetPostsByTag(posts, tag) == []
  {
    forall p | p in posts ensures !TagFilter(tag)(p) {
      forall t | t in p.tags ensures Slugify(t) != tag {
        assert IsSlug(Slugify(t));
      }
    }
    FilterNone(posts, TagFilter(tag));
  }

  /** A post is listed under the slug of each of its tags. */
  lemma PostListedUnderItsTags(posts: seq<PostMeta>, p: PostMeta, t: string)
    requires p in posts && t in p.tags
    ensures p in GetPostsByTag(posts, Slugify(t))
  {
    assert multiset(GetPostsByTag(posts, Slugify(t)))[p] > 0;
  }

  /** The number of posts `getPostsByCategory` gives for a category's slug
      is at least the count `getAllCategories` shows for it, and equal
      when no other category name has the same slug. */
  lemma {:induction false} CategoryCountMatchesPage(posts: seq<PostMeta>, name: string)
    ensures multiset(CategoryNames(posts))[name] <= |GetPostsByCategory(posts, Slugify(name))|
    ensures (forall p :: p in posts && Slugify(p.category) == Slugify(name) ==> p.category == name) ==>
      multiset(CategoryNames(posts))[name] == |GetPostsByCategory(posts, Slugify(name))|
  {
    if posts != [] {
      CategoryCountMatchesPage(posts[1..], name);
      CategoryCountStep(posts, name);
      CategoryPageStep(posts, Slugify(name));
      assert forall p :: p in posts[1..] ==> p in posts;
    }
  }

  lemma CategoryCountStep(posts: seq<PostMeta>, name: string)
    requires posts != []
    ensures multiset(CategoryNames(posts))[name] ==
      (if posts[0].category == name then 1 else 0) + multiset(CategoryNames(posts[1..]))[name]
  {
    assert CategoryNames(posts) == [posts[0].category] + CategoryNames(posts[1..]);
  }

  lemma CategoryPageStep(posts: seq<PostMeta>, category: string)
    requires posts != []
    ensures |GetPostsByCategory(posts, category)| ==
      (if InCategory(posts[0], category) then 1 else 0) + |GetPostsByCategory(posts[1..], category)|
  {
  }

  // ----- getRelatedPosts ---------------------------------------------------

  /** `allPosts.find(post => post.slug === currentSlug)`. */
  function FindBySlug(posts: seq<PostMeta>, slug: string): (r: Option<PostMeta>)
    ensures r.None? <==> forall p :: p in posts ==> p.slug != slug
    ensures r.Some? ==>
      exists i :: 0 <= i < |posts| && posts[i] == r.value && r.value.slug == slug
        && forall j :: 0 <= j < i ==> posts[j].slug != slug
  {
    if posts == [] then None
    else if posts[0].slug == slug then
      Some(posts[0])
    else
      var r := FindBySlug(posts[1..], slug);
      assert forall p :: p in posts ==> p == posts[0] || p in posts[1..];
      if r.Some? then
        var i :| 0 <= i < |posts[1..]| && posts[1..][i] == r.value && r.value.slug == slug
          && forall j :: 0 <= j < i ==> posts[1..][j].slug != slug;
        assert posts[i + 1] == r.value;
        assert forall j :: 0 <= j < i + 1 ==> posts[j].slug != slug by {
          forall j | 0 <= j < i + 1 ensures posts[j].slug != slug {
            if j > 0 { assert posts[j] == posts[1..][j - 1]; }
          }
        }
        r
      else r
  }

  /** Related to `current`: the same category, or a tag in common. */
  predicate IsRelated(p: PostMeta, current: PostMeta) {
    p.category == current.category || exists t :: t in p.tags && t in current.tags
  }

  function OtherSlugFilter(slug: string): PostMeta -> bool {
    (p: PostMeta) => p.slug != slug
  }

  function RelatedFilter(current: PostMeta): PostMeta -> bool {
    (p: PostMeta) => IsRelated(p, current)
  }

  predicate IsRelatedCandidate(p: PostMeta, current: PostMeta, slug: string) {
    p.slug != slug && IsRelated(p, current)
  }

  /** The two filters of `getRelatedPosts`, before the `slice`. */
  function RelatedCandidates(posts: seq<PostMeta>, current: PostMeta, slug: string): (r: seq<PostMeta>)
    ensures IsSubseq(r, posts)
    ensures forall p :: multiset(r)[p] == if IsRelatedCandidate(p, current, slug) then multiset(posts)[p] else 0
    ensures forall p :: p in r ==> p in posts && IsRelatedCandidate(p, current, slug)
  {
    var both := (p: PostMeta) => IsRelatedCandidate(p, current, slug);
    FilterFilter(posts, OtherSlugFilter(slug), RelatedFilter(current), both);
    FilterIsSubseq(posts, both);
    FilterCount(posts, both);
    Filter(Filter(posts, OtherSlugFilter(slug)), RelatedFilter(current))
  }

  /** `getRelatedPosts`: nothing for an unknown slug; otherwise the first
      `limit` other posts sharing the category or a tag, in list order (a
      negative `limit` drops that many from the end, as `slice` does). */
  function GetRelatedPosts(posts: seq<PostMeta>, currentSlug: string, limit: int): (r: seq<PostMeta>)
    ensures FindBySlug(posts, currentSlug).None? ==> r == []
    ensures FindBySlug(posts, currentSlug).Some? ==>
      var cands := RelatedCandidates(posts, FindBySlug(posts, currentSlug).value, currentSlug);
      |r| <= |cands| && r == cands[..|r|]
      && |r| == (if limit >= 0 then Min(limit, |cands|) else Max(0, |cands| + limit))
    ensures forall p :: p in r ==>
      p in posts && p.slug != currentSlug
      && FindBySlug(posts, currentSlug).Some? && IsRelated(p, FindBySlug(posts, currentSlug).value)
  {
    match FindBySlug(posts, currentSlug)
    case None => []
    case Some(current) =>
      var cands := RelatedCandidates(posts, current, currentSlug);
      var r := JsSlice(cands, 0, limit);
      assert JsIndex(|cands|, 0) == 0;
      assert r == cands[..|r|];
      r
  }

  function Min(a: int, b: int): int { if a < b then a else b }
  function Max(a: int, b: int): int { if a < b then b else a }

  // ----- paginatePosts -----------------------------------------------------

  /** `paginatePosts`: the posts `(page - 1) * postsPerPage` up to
      `page * postsPerPage`, taken with `slice`, and the page counters. */
  function PaginatePosts(posts: seq<PostMeta>, page: int, postsPerPage: int): (r: PageResult)
    requires postsPerPage >= 1
    ensures r.pagination.currentPage == page && r.pagination.totalPosts == |posts|
    ensures var t := r.pagination.totalPages;
      (t - 1) * postsPerPage < |posts| <= t * postsPerPage || (|posts| == 0 && t == 0)
    ensures r.pagination.hasNextPage <==> page * postsPerPage < |posts|
    ensures r.pagination.hasNextPage <==> page < r.pagination.totalPages
    ensures r.pagination.hasPrevPage <==> page > 1
    ensures |r.posts| <= postsPerPage
    ensures 1 <= page ==>
      var start := (page - 1) * postsPerPage;
      0 <= start && r.posts == posts[Min(start, |posts|)..Min(start + postsPerPage, |posts|)]
    ensures page == 0 ==> r.posts == []
    ensures page < 0 ==>
      var start := (page - 1) * postsPerPage;
      start + postsPerPage < 0
      && r.posts == posts[Max(0, |posts| + start)..Max(0, |posts| + start + postsPerPage)]
  {
    var startIndex := (page - 1) * postsPerPage;
    var endIndex := startIndex + postsPerPage;
    var totalPages := CeilDiv(|posts|, postsPerPage);
    NextPageIffBeforeLast(page, postsPerPage, |posts|, totalPages);
    SliceWindow(posts, startIndex, postsPerPage);
    PageStart(page, postsPerPage);
    PageResult(
      JsSlice(posts, startIndex, endIndex),
      PaginationInfo(page, totalPages, |posts|, endIndex < |posts|, page > 1))
  }

  lemma PageStart(page: int, n: nat)
    ensures page >= 1 ==> (page - 1) * n >= 0
    ensures page == 0 ==> (page - 1) * n + n == 0
    ensures page < 0 && n >= 1 ==> (page - 1) * n + n < 0
  {
    if page >= 1 { MulMonotone(0, page - 1, n); }
    if page < 0 { MulMonotone(page, -1, n); }
  }

  /** A `slice` of `n` positions from `start`. */
  lemma SliceWindow<T>(s: seq<T>, start: int, n: nat)
    ensures |JsSlice(s, start, start + n)| <= n
    ensures start >= 0 ==> JsSlice(s, start, start + n) == s[Min(start, |s|)..Min(start + n, |s|)]
    ensures start + n == 0 ==> JsSlice(s, start, start + n) == []
    ensures start + n < 0 ==> JsSlice(s, start, start + n) == s[Max(0, |s| + start)..Max(0, |s| + start + n)]
  {
  }

  lemma MulMonotone(a: int, b: int, n: nat)
    requires a <= b
    ensures a * n <= b * n
  {
    assert b * n - a * n == (b - a) * n;
  }

  /** `endIndex < posts.length` holds exactly on the pages before the last. */
  lemma NextPageIffBeforeLast(page: int, n: int, len: nat, t: nat)
    requires n >= 1
    requires (t - 1) * n < len <= t * n || (len == 0 && t == 0)
    ensures page * n < len <==> page < t
  {
    if page < t {
      MulMonotone(page, t - 1, n);
    } else {
      MulMonotone(t, page, n);
    }
  }

  /** Every post is on exactly the page its index says: post `k` is item
      `k % n` of page `k / n + 1`, and that page number is a valid one. */
  lemma PostOnItsPage(posts: seq<PostMeta>, n: int, k: nat)
    requires n >= 1 && k < |posts|
    ensures var r := PaginatePosts(posts, k / n + 1, n);
      1 <= k / n + 1 <= r.pagination.totalPages
      && k % n < |r.posts| && r.posts[k % n] == posts[k]
  {
    var q, m := k / n, k % n;
    assert k == q * n + m;
    MulMonotone(0, q, n);
    var r := PaginatePosts(posts, q + 1, n);
    assert (q + 1 - 1) * n == q * n;
    NextPageIffBeforeLast(q, n, |posts|, r.pagination.totalPages);
  }

  /** Pages past the last one are empty. */
  lemma PastLastPageIsEmpty(posts: seq<PostMeta>, page: int, n: int)
    requires n >= 1
    requires page > PaginatePosts(posts, page, n).pagination.totalPages
    ensures PaginatePosts(posts, page, n).posts == []
  {
    var t := PaginatePosts(posts, page, n).pagination.totalPages;
    MulMonotone(t, page - 1, n);
  }

  /** From a page `>= 1`, a "next page" link never leads to an empty page. */
  lemma NextPageIsNotEmpty(posts: seq<PostMeta>, page: int, n: int)
    requires n >= 1 && page >= 1
    requires PaginatePosts(posts, page, n).pagination.hasNextPage
    ensures PaginatePosts(posts, page + 1, n).posts != []
  {
    NextPageIffBeforeLast(page, n, |posts|, PaginatePosts(posts, page, n).pagination.totalPages);
  }

  /** From a negative page the claim fails: with twelve posts, page -3
      still has a next page by `hasNextPage`, and the next link's page -2
      is empty. */
  lemma NextFromNegativePageCanBeEmpty(posts: seq<PostMeta>)
    requires |posts| == 12
    ensures PaginatePosts(posts, -3, 6).pagination.hasNextPage
    ensures PaginatePosts(posts, -2, 6).posts == []
  {
    assert JsIndex(12, -18) == 0 && JsIndex(12, -12) == 0;
  }

  /** `?page=-1` is not rejected: `slice` counts the negative bounds from
      the end, so with twelve posts it shows the same posts as page 1. */
  lemma NegativePageCountsFromEnd(posts: seq<PostMeta>)
    requires |posts| == 12
    ensures PaginatePosts(posts, -1, 6).posts == PaginatePosts(posts, 1, 6).posts == posts[..6]
  {
    assert JsIndex(12, -12) == 0 && JsIndex(12, -6) == 6;
  }

  /** Pages 1 to `k`, one after the other. */
  function PagesUpTo(posts: seq<PostMeta>, n: int, k: nat): seq<PostMeta>
    requires n >= 1
  {
    if k == 0 then [] else PagesUpTo(posts, n, k - 1) + PaginatePosts(posts, k, n).posts
  }

  /** The first `k` pages hold the first `k * n` posts. */
  lemma {:induction false} PagesUpToArePrefix(posts: seq<PostMeta>, n: int, k: nat)
    requires n >= 1
    ensures PagesUpTo(posts, n, k) == posts[..Min(k * n, |posts|)]
  {
    if k > 0 {
      PagesUpToArePrefix(posts, n, k - 1);
      PageExtendsPrefix(posts, n, k);
    }
  }

  lemma PageExtendsPrefix(posts: seq<PostMeta>, n: int, k: nat)
    requires n >= 1 && k >= 1
    ensures posts[..Min((k - 1) * n, |posts|)] + PaginatePosts(posts, k, n).posts == posts[..Min(k * n, |posts|)]
  {
    var start := (k - 1) * n;
    assert start + n == k * n;
    var a, b := Min(start, |posts|), Min(start + n, |posts|);
    assert posts[..a] + posts[a..b] == posts[..b];
  }

  /** Pages 1 to `totalPages`, concatenated, give back the whole list. */
  lemma PagesCoverPosts(posts: seq<PostMeta>, n: int)
    requires n >= 1
    ensures PagesUpTo(posts, n, PaginatePosts(posts, 1, n).pagination.totalPages) == posts
  {
    var t := PaginatePosts(posts, 1, n).pagination.totalPages;
    PagesUpToArePrefix(posts, n, t);
  }
}
