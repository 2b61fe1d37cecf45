/**
 * The RSS 2.0 feed: the channel and item records, the two string helpers
 * that fill them, and the construction of the feed from the ordered posts.
 * The records stand for the document before XML serialisation.
 */
module Feed {
  import opened Strings
  import opened Calendar
  import opened Types

  /** One `<item>` of the channel. */
  datatype Item = Item(title: Bytes, link: Bytes, guid: Bytes, pubDate: Bytes, description: Bytes)

  /** The `<channel>`; an empty `language` or `lastBuildDate` is omitted from the document. */
  datatype Channel = Channel(
    title: Bytes, link: Bytes, description: Bytes, language: Bytes, lastBuildDate: Bytes, items: seq<Item>)

  /** The `<rss>` root with its `version` attribute. */
  datatype Rss = Rss(version: Bytes, channel: Channel)

  const Version: Bytes := Ascii("2.0")

  /** `joinURL`: the base without its trailing slashes, one slash, the name without its leading slashes. */
  function JoinURL(base: Bytes, name: Bytes): Bytes {
    TrimRight(base, Slash) + [Slash] + TrimLeft(name, Slash)
  }

  /**
   * The joined URL has exactly one slash where base and name meet: it is a
   * prefix of the base that leaves out only slashes and does not end in one,
   * then one slash, then a suffix of the name that leaves out only slashes and
   * does not start with one.
   */
  lemma JoinURLOneSlash(base: Bytes, name: Bytes)
    ensures var r, k := JoinURL(base, name), |TrimRight(base, Slash)|;
      k < |r| && r[k] == Slash && r[..k] == base[..k] && (k == 0 || r[k - 1] != Slash) && Only(base[k..], Slash)
    ensures var r, k := JoinURL(base, name), |TrimRight(base, Slash)|;
      k < |r| && r[k + 1..] == name[|name| - (|r| - k - 1)..] &&
      (k + 1 == |r| || r[k + 1] != Slash) && Only(name[..|name| - (|r| - k - 1)], Slash)
  {
    var b, n := TrimRight(base, Slash), TrimLeft(name, Slash);
    var r := JoinURL(base, name);
    assert r[..|b|] == b && r[|b|] == Slash;
    assert r[|b| + 1..] == n && |r| - |b| - 1 == |n|;
  }

  /** Slashes at the end of the base or the start of the name do not change the URL. */
  lemma JoinURLIgnoresExtraSlashes(base: Bytes, name: Bytes, tail: Bytes, head: Bytes)
    requires Only(tail, Slash) && Only(head, Slash)
    ensures JoinURL(base + tail, head + name) == JoinURL(base, name)
  {
    TrimRightPadded(base, tail, Slash);
    TrimLeftPadded(head, name, Slash);
  }

  /** A base without a trailing slash and a name without a leading one are joined with one slash. */
  lemma JoinURLPlain(base: Bytes, name: Bytes)
    requires base == [] || base[|base| - 1] != Slash
    requires name == [] || name[0] != Slash
    ensures JoinURL(base, name) == base + [Slash] + name
  {
    TrimRightUnique(base, Slash, base);
    TrimLeftUnique(name, Slash, name);
  }

  /** "https://example.com/" and "T.html" make "https://example.com/T.html": the base's trailing slash is not doubled. */
  lemma JoinURLExample()
    ensures JoinURL(Ascii("https://example.com/"), Ascii("T.html")) == Ascii("https://example.com/T.html")
  {
    var site, page := Ascii("https://example.com"), Ascii("T.html");
    assert Ascii("https://example.com/") == site + [Slash];
    assert Ascii("https://example.com/T.html") == site + [Slash] + page;
    JoinURLIgnoresExtraSlashes(site, page, [Slash], []);
    assert [] + page == page;
    JoinURLPlain(site, page);
  }

  const MaxSummary: nat := 280
  /** The three dots, `...`, that mark a cut summary. */
  const Ellipsis: Bytes := [0x2E, 0x2E, 0x2E]

  /**
   * `summarize`: collapse the white space of the content, then cut it to its
   * first 280 bytes and mark the cut with "..." when it is longer than that.
   */
  function Summarize(s: Bytes): (r: Bytes)
    ensures |r| <= MaxSummary + |Ellipsis|
    ensures |Collapse(s)| <= MaxSummary ==> r == Collapse(s)
    ensures |Collapse(s)| > MaxSummary ==> |r| == MaxSummary + |Ellipsis| && r == Collapse(s)[..MaxSummary] + Ellipsis
  {
    var c := Collapse(s);
    if |c| <= MaxSummary then c else c[..MaxSummary] + Ellipsis
  }

  /** An already collapsed text of at most 280 bytes is its own summary. */
  lemma SummaryOfShortText(s: Bytes)
    requires Collapsed(s) && |s| <= MaxSummary
    ensures Summarize(s) == s
  {
    CollapseKeepsCollapsed(s);
  }

  /** A collapsed text cut after a letter or a space and marked with "..." is collapsed. */
  lemma CutCollapsed(c: Bytes, n: nat)
    requires Collapsed(c) && 0 < n <= |c|
    ensures Collapsed(c[..n] + Ellipsis)
  {
    var t := c[..n] + Ellipsis;
    assert forall j :: 0 <= j < n ==> t[j] == c[j];
    assert forall j :: n <= j < |t| ==> t[j] == Ellipsis[j - n];
    forall j | 0 <= j < |t| && IsSpace(t[j])
      ensures t[j] == Space && j + 1 < |t| && !IsSpace(t[j + 1])
    {
      assert j < n;
    }
  }

  /** Summarising is idempotent: a summary, cut or not, summarises to itself. */
  lemma SummaryOfSummary(s: Bytes)
    ensures Summarize(Summarize(s)) == Summarize(s)
  {
    var c := Collapse(s);
    if |c| <= MaxSummary {
      CollapseIdempotent(s);
    } else {
      var r := Summarize(s);
      CollapseShape(s);
      CutCollapsed(c, MaxSummary);
      CollapseKeepsCollapsed(r);
      assert r[..MaxSummary] == c[..MaxSummary];
    }
  }

  lemma LettersOfPrefix(s: Bytes, n: nat)
    requires n <= |s|
    ensures Letters(s[..n]) <= Letters(s)
  {
    assert s == s[..n] + s[n..];
    LettersAppend(s[..n], s[n..]);
  }

  /** Every white space byte of `t` is the space. */
  predicate PlainSpaces(t: Bytes) {
    forall j :: 0 <= j < |t| && IsSpace(t[j]) ==> t[j] == Space
  }

  lemma PlainSpacesConcat(a: Bytes, b: Bytes)
    requires PlainSpaces(a) && PlainSpaces(b)
    ensures PlainSpaces(a + b)
  {
    var t := a + b;
    assert forall j :: 0 <= j < |a| ==> t[j] == a[j];
    assert forall j :: |a| <= j < |t| ==> t[j] == b[j - |a|];
  }

  /**
   * A summary is in collapsed form: it starts with a letter of the content,
   * has no trailing or doubled white space, and its only white space byte is
   * the space.
   */
  lemma SummaryShape(s: Bytes)
    ensures Collapsed(Summarize(s))
    ensures Summarize(s) == [] || !IsSpace(Summarize(s)[0])
    ensures PlainSpaces(Summarize(s))
  {
    var c := Collapse(s);
    CollapseShape(s);
    assert PlainSpaces(c);
    if |c| > MaxSummary {
      CutCollapsed(c, MaxSummary);
      var p := c[..MaxSummary];
      assert forall j :: 0 <= j < |p| ==> p[j] == c[j];
      assert PlainSpaces(p);
      assert PlainSpaces(Ellipsis);
      PlainSpacesConcat(p, Ellipsis);
      assert Summarize(s)[0] == c[0];
    }
  }

  lemma LettersOfEllipsis()
    ensures Letters(Ellipsis) == Ellipsis
  {
    assert Ellipsis[1..][1..][1..] == [];
  }

  /**
   * The letters of a summary are those of the content: all of them when it
   * was not cut, and a leading part of them followed by "..." when it was.
   */
  lemma SummaryLetters(s: Bytes)
    ensures |Collapse(s)| <= MaxSummary ==> Letters(Summarize(s)) == Letters(s)
    ensures |Collapse(s)| > MaxSummary ==>
      exists n :: 0 <= n <= |Letters(s)| && Letters(Summarize(s)) == Letters(s)[..n] + Ellipsis
  {
    var c := Collapse(s);
    CollapseShape(s);
    if |c| > MaxSummary {
      LettersOfPrefix(c, MaxSummary);
      LettersAppend(c[..MaxSummary], Ellipsis);
      LettersOfEllipsis();
      var n := |Letters(c[..MaxSummary])|;
      assert Letters(c[..MaxSummary]) == Letters(s)[..n];
    }
  }

  /** The item the loop of `writeRSS` appends for `post`. */
  function ItemFor(post: BlogPost, cfg: RSSConfig): Item {
    var link := JoinURL(cfg.link, post.filename);
    Item(post.title, link, link, FormatRFC1123Z(post.timestamp), Summarize(post.content))
  }

  /** The items of the first `n` posts, one per post and in the order of the posts. */
  function Items(posts: seq<BlogPost>, n: nat, cfg: RSSConfig): (r: seq<Item>)
    requires n <= |posts|
    ensures |r| == n
  {
    if n == 0 then [] else Items(posts, n - 1, cfg) + [ItemFor(posts[n - 1], cfg)]
  }

  /**
   * Item `i` of the feed is what the feed says of post `i`: its title, its
   * page's URL as link and guid, its date and the summary of its content.
   */
  lemma {:induction false} ItemsAreItemsOf(posts: seq<BlogPost>, n: nat, cfg: RSSConfig, i: nat)
    requires i < n <= |posts|
    ensures Items(posts, n, cfg)[i].title == posts[i].title
    ensures Items(posts, n, cfg)[i].link == JoinURL(cfg.link, posts[i].filename)
    ensures Items(posts, n, cfg)[i].guid == Items(posts, n, cfg)[i].link
    ensures Items(posts, n, cfg)[i].pubDate == FormatRFC1123Z(posts[i].timestamp)
    ensures Items(posts, n, cfg)[i].description == Summarize(posts[i].content)
  {
    if i < n - 1 {
      ItemsAreItemsOf(posts, n - 1, cfg, i);
    }
  }

  /**
   * What the feed of `writeRSS` is for `posts`: version "2.0", the channel
   * fields copied from the configuration, a build date exactly when there
   * are posts and then that of the first post, and one item per post in
   * the order of the posts.
   */
  predicate IsFeedOf(feed: Rss, posts: seq<BlogPost>, cfg: RSSConfig) {
    feed.version == Version &&
    feed.channel.title == cfg.title && feed.channel.link == cfg.link &&
    feed.channel.description == cfg.description && feed.channel.language == cfg.language &&
    (feed.channel.lastBuildDate != [] <==> |posts| > 0) &&
    (|posts| > 0 ==> feed.channel.lastBuildDate == FormatRFC1123Z(posts[0].timestamp)) &&
    feed.channel.items == Items(posts, |posts|, cfg)
  }

  /** `writeRSS` up to the serialisation. */
  method BuildFeed(posts: seq<BlogPost>, cfg: RSSConfig) returns (feed: Rss)
    ensures IsFeedOf(feed, posts, cfg)
  {
    feed := Rss(Version, Channel(cfg.title, cfg.link, cfg.description, cfg.language, [], []));
    if |posts| > 0 {
      feed := feed.(channel := feed.channel.(lastBuildDate := FormatRFC1123Z(posts[0].timestamp)));
      assert |feed.channel.lastBuildDate| == 31;
    }
    ghost var head := feed;
    for i := 0 to |posts|
      invariant feed == head.(channel := head.channel.(items := Items(posts, i, cfg)))
    {
      var link := JoinURL(cfg.link, posts[i].filename);
      var item := Item(posts[i].title, link, link, FormatRFC1123Z(posts[i].timestamp), Summarize(posts[i].content));
      feed := feed.(channel := feed.channel.(items := feed.channel.items + [item]));
    }
  }
}
