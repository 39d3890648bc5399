/** The tag links of src/components/ui/BlogCard.tsx, set against the tag
    lookup of src/lib/blog.ts. */
module BlogCard {
  import opened Text
  import opened Slug
  import opened BlogTypes
  import opened Blog

  const TagsPath := "/tags/"

  // ----- as written -------------------------------------------------------

  /** `tag.toLowerCase().replace(/\s+/g, '-')`: the path segment the card
      links a tag to. */
  function TagSegmentAsWritten(tag: string): (segment: string)
    ensures |segment| <= |tag|
    ensures forall i :: 0 <= i < |segment| ==> segment[i] == '-' || (segment[i] in Lower(tag) && !IsSpace(segment[i]))
  {
    CollapseRuns(Lower(tag), IsSpace)
  }

  function TagHrefAsWritten(tag: string): (href: string)
    ensures |href| >= |TagsPath| && href[..|TagsPath|] == TagsPath && href[|TagsPath|..] == TagSegmentAsWritten(tag)
  {
    TagsPath + TagSegmentAsWritten(tag)
  }

  /** A tag without white space is linked under its lower-cased self, with
      every character kept. */
  lemma TagSegmentWithoutSpace(tag: string)
    requires forall i :: 0 <= i < |tag| ==> !IsSpace(tag[i])
    ensures TagSegmentAsWritten(tag) == Lower(tag)
  {
    CollapseWithoutSeparator(Lower(tag), IsSpace);
  }

  /** Each maximal run of white space becomes one `-`, at its place. With
      TagSegmentWithoutSpace this determines the segment of every tag. */
  lemma TagSegmentDashesSpaceRun(a: string, r: string, b: string)
    requires a == [] || !IsSpace(a[|a| - 1])
    requires r != [] && forall i :: 0 <= i < |r| ==> IsSpace(r[i])
    requires b == [] || !IsSpace(b[0])
    ensures TagSegmentAsWritten(a + r + b) == TagSegmentAsWritten(a) + "-" + TagSegmentAsWritten(b)
  {
    LowerConcat(a + r, b);
    LowerConcat(a, r);
    CollapseRunBetween(Lower(a), Lower(r), Lower(b), IsSpace);
  }

  /** A character the card keeps but `slugify` drops or replaces: not a
      letter, digit, white space or `-` (`.`, `+`, `#`, `_`, a Chinese
      character). */
  predicate BreaksCardLink(c: char) {
    !IsAlnum(c) && !IsSpace(c) && c != '-'
  }

  /** For a tag holding such a character, the card links to a segment that
      is not a slug, so the tag lookup finds no post there, while the posts
      carrying the tag are found under its slug. */
  lemma {:induction false} AsWrittenLinkMissesTaggedPosts(posts: seq<PostMeta>, tag: string, i: nat)
    requires i < |tag| && BreaksCardLink(tag[i])
    ensures GetPostsByTag(posts, TagSegmentAsWritten(tag)) == []
    ensures forall p :: p in posts && tag in p.tags ==> p in GetPostsByTag(posts, TagSegment(tag))
  {
    var c := tag[i];
    assert Lower(tag)[i] == c;
    CollapseKeepsChar(Lower(tag), IsSpace, c);
    assert !IsSlug(TagSegmentAsWritten(tag)) by {
      var seg := TagSegmentAsWritten(tag);
      var j :| 0 <= j < |seg| && seg[j] == c;
      assert !IsSlugChar(seg[j]);
    }
    NonSlugTagMatchesNothing(posts, TagSegmentAsWritten(tag));
    forall p | p in posts && tag in p.tags ensures p in GetPostsByTag(posts, TagSegment(tag)) {
      PostListedUnderItsTags(posts, p, tag);
    }
  }

  /** The tag `Next.js`: its card link finds nothing. */
  lemma NextJsLinkFindsNothing(posts: seq<PostMeta>)
    ensures GetPostsByTag(posts, TagSegmentAsWritten("Next.js")) == []
  {
    AsWrittenLinkMissesTaggedPosts(posts, "Next.js", 4);
  }

  // ----- corrected ----------------------------------------------------------

  /** The segment the tag lookup matches against: the tag's `slugify`, the
      same `slug` that `getAllTags` reports for it. */
  function TagSegment(tag: string): (segment: string)
    ensures IsSlug(segment)
  {
    Slugify(tag)
  }

  function TagHref(tag: string): (href: string)
    ensures |href| >= |TagsPath| && href[..|TagsPath|] == TagsPath && href[|TagsPath|..] == TagSegment(tag)
  {
    TagsPath + TagSegment(tag)
  }

  /** Every post appears on the page each of its tag links points to. */
  lemma TagLinkListsPost(posts: seq<PostMeta>, p: PostMeta, tag: string)
    requires p in posts && tag in p.tags
    ensures p in GetPostsByTag(posts, TagHref(tag)[|TagsPath|..])
  {
    PostListedUnderItsTags(posts, p, tag);
  }
}
