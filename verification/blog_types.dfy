/** The records of src/types/blog.ts, plus the parsed form of one post
    file that the loader reads. */
module BlogTypes {
  import opened Wrappers

  /** `BlogPostMeta`; the loader always fills in `readingTime`. */
  datatype PostMeta = PostMeta(
    slug: string,
    title: string,
    date: string,
    excerpt: string,
    category: string,
    tags: seq<string>,
    author: string,
    readingTime: nat)

  /** `Category` as `getAllCategories` builds it (it never sets `description`). */
  datatype Category = Category(name: string, slug: string, count: nat)

  /** `Tag`. */
  datatype Tag = Tag(name: string, slug: string, count: nat)

  /** `PaginationInfo`. */
  datatype PaginationInfo = PaginationInfo(
    currentPage: int,
    totalPages: nat,
    totalPosts: nat,
    hasNextPage: bool,
    hasPrevPage: bool)

  /** What `paginatePosts` returns. */
  datatype PageResult = PageResult(posts: seq<PostMeta>, pagination: PaginationInfo)

  /** The front matter of a post as the parser hands it over; `tags` may be
      missing. */
  datatype FrontMatter = FrontMatter(
    title: string,
    date: string,
    excerpt: string,
    category: string,
    tags: Option<seq<string>>,
    author: string)

  /** One entry of the posts directory: its file name, its parsed front
      matter and its markdown body. */
  datatype PostFile = PostFile(name: string, data: FrontMatter, content: string)
}
