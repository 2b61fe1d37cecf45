/**
 * The pipeline of `main`: collect the posts, sort them most recent first,
 * and build the feed from the sorted posts, which are also the posts the
 * index page lists.
 */
module Site {
  import opened Results
  import opened Types
  import opened Posts
  import opened Feed

  /** What the generator publishes: the posts of the index page, in order, and the feed. */
  datatype Output = Output(index: seq<BlogPost>, feed: Rss)

  /**
   * `main` without the file system: a failed scan stops the run with its
   * error; otherwise the index holds the collected posts most recent first,
   * and the feed is built from the index: one item per post in that same
   * order, and the build date of the first, most recent, post.
   */
  method Generate(entries: seq<Entry>, cfg: RSSConfig) returns (r: Result<Output, ParseError>)
    ensures r.Failure? <==> Collect(entries).Failure?
    ensures r.Failure? ==> r.error == Collect(entries).error
    ensures r.Success? ==> ByRecency(r.value.index)
    ensures r.Success? ==> multiset(r.value.index) == multiset(Collect(entries).value)
    ensures r.Success? ==> forall p :: p in r.value.index ==> p.filename == p.title + PageExt
    ensures r.Success? ==> IsFeedOf(r.value.feed, r.value.index, cfg)
  {
    var collected := CollectPosts(entries);
    if collected.Failure? {
      return Failure(collected.error);
    }
    var posts := collected.value;
    var a := new BlogPost[|posts|](i requires 0 <= i < |posts| => posts[i]);
    assert a[..] == posts;
    SortByRecency(a);
    CollectedPagesNamedByTitle(entries);
    forall p | p in a[..] ensures p.filename == p.title + PageExt {
      assert p in multiset(a[..]);
    }
    var feed := BuildFeed(a[..], cfg);
    return Success(Output(a[..], feed));
  }
}
