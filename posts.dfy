/**
 * Turning the entries of the input directory into posts: the metadata
 * encoded in a file name, the scan that loads every source file, and the
 * ordering by recency.
 */
module Posts {
  import opened Results
  import opened Strings
  import opened Calendar
  import opened Types

  /** A directory entry as `os.ReadDir` lists it, with the bytes the file holds. */
  datatype Entry = Entry(name: Bytes, isDir: bool, content: Bytes)

  /** The two fatal format errors, each carrying the base name with `.txt` removed. */
  datatype ParseError =
    | InvalidFormat(base: Bytes)  // no `_` separates a date from a title
    | BadDate(base: Bytes)        // the part before the first `_` is not a YYYYMMDD date

  const SourceExt: Bytes := Ascii(".txt")
  const PageExt: Bytes := Ascii(".html")

  /**
   * `parseFilename`: strip one trailing `.txt`, split at the first `_`,
   * read the part before it as a date and keep the rest, verbatim, as the
   * title. The file name and content of the post are left empty.
   */
  function ParseFilename(name: Bytes): (r: Result<BlogPost, ParseError>)
    ensures r.Failure? ==> r.error.base == TrimSuffix(name, SourceExt)
    ensures r.Success? ==> r.value.filename == [] && r.value.content == []
  {
    var base := TrimSuffix(name, SourceExt);
    match SplitFirst(base, Underscore)
    case None => Failure(InvalidFormat(base))
    case Some((date, title)) =>
      match ParseDate(date)
      case None => Failure(BadDate(base))
      case Some(ts) => Success(BlogPost([], title, ts, []))
  }

  /** A name made of a date, `_`, any title and `.txt` parses to exactly that title and date. */
  lemma ParseFilenameOfSpelled(d: Timestamp, title: Bytes)
    ensures ParseFilename(DateDigits(d) + [Underscore] + title + SourceExt) == Success(BlogPost([], title, d, []))
  {
    var base := DateDigits(d) + [Underscore] + title;
    assert TrimSuffix(base + SourceExt, SourceExt) == base by {
      assert (base + SourceExt)[|base|..] == SourceExt;
      assert (base + SourceExt)[..|base|] == base;
    }
    assert Underscore !in DateDigits(d);
    SplitFirstOfJoined(DateDigits(d), Underscore, title);
    ParseDateDigits(d);
  }

  /**
   * Conversely, whatever parses is, once `.txt` is removed, the date's eight
   * digits, `_` and the title.
   */
  lemma ParseFilenameSpells(name: Bytes, post: BlogPost)
    requires ParseFilename(name) == Success(post)
    ensures TrimSuffix(name, SourceExt) == DateDigits(post.timestamp) + [Underscore] + post.title
    ensures post.filename == [] && post.content == []
  {
    var base := TrimSuffix(name, SourceExt);
    var (date, title) := SplitFirst(base, Underscore).value;
    ParsedDateDigits(date, post.timestamp);
  }

  /** A base name without `_` is an invalid format. */
  lemma ParseFilenameNoSeparator(name: Bytes)
    requires Underscore !in TrimSuffix(name, SourceExt)
    ensures ParseFilename(name) == Failure(InvalidFormat(TrimSuffix(name, SourceExt)))
  {
  }

  /** When the part before the first `_` is not a date, the date error is reported. */
  lemma ParseFilenameBadDate(name: Bytes, date: Bytes, title: Bytes)
    requires TrimSuffix(name, SourceExt) == date + [Underscore] + title
    requires Underscore !in date && ParseDate(date).None?
    ensures ParseFilename(name) == Failure(BadDate(TrimSuffix(name, SourceExt)))
  {
    SplitFirstOfJoined(date, Underscore, title);
  }

  /**
   * "20240115_Hello_World.txt" is the post
   * "Hello_World" of 15 January 2024, published as "Hello_World.html"; the
   * second `_` stays in the title.
   */
  lemma LoadExample(content: Bytes)
    ensures Load(Entry(Ascii("20240115_Hello_World.txt"), false, content)) ==
      Success(BlogPost(Ascii("Hello_World.html"), Ascii("Hello_World"), Date(2024, 1, 15), content))
  {
    var title := Ascii("Hello_World");
    ExampleSpelling();
    assert Ascii("Hello_World.html") == title + PageExt;
    ParseFilenameOfSpelled(Date(2024, 1, 15), title);
  }

  lemma ExampleSpelling()
    ensures Ascii("20240115_Hello_World.txt") == DateDigits(Date(2024, 1, 15)) + [Underscore] + Ascii("Hello_World") + SourceExt
  {
    ExampleDigits();
    assert Ascii("20240115_Hello_World.txt") == Ascii("20240115") + [Underscore] + Ascii("Hello_World") + SourceExt;
  }

  lemma ExampleDigits()
    ensures DateDigits(Date(2024, 1, 15)) == Ascii("20240115")
  {
    assert DateDigits(Date(2024, 1, 15)) == [Digit(2), Digit(0), Digit(2), Digit(4), Digit(0), Digit(1), Digit(1), Digit(5)];
  }

  /** The entries the scan reads: files, not directories, whose name ends in `.txt`. */
  predicate IsSource(e: Entry) {
    !e.isDir && HasSuffix(e.name, SourceExt)
  }

  /** The source entries, in directory order. */
  function Sources(es: seq<Entry>): (r: seq<Entry>)
    ensures |r| <= |es|
  {
    if es == [] then []
    else if IsSource(es[|es| - 1]) then Sources(es[..|es| - 1]) + [es[|es| - 1]]
    else Sources(es[..|es| - 1])
  }

  /**
   * One iteration of `collectPosts` on a source entry: parse the name, attach
   * the file's content and name the output page after the title.
   */
  function Load(e: Entry): (r: Result<BlogPost, ParseError>)
    ensures r.Success? ==> r.value.content == e.content && r.value.filename == r.value.title + PageExt
    ensures r.Success? ==> ParseFilename(e.name) == Success(r.value.(filename := [], content := []))
    ensures r.Failure? ==> ParseFilename(e.name) == Failure(r.error)
  {
    match ParseFilename(e.name)
    case Failure(err) => Failure(err)
    case Success(post) => Success(post.(content := e.content).(filename := post.title + PageExt))
  }

  /**
   * What `collectPosts` produces for a directory listing: the posts of the
   * source entries in listing order, or the error of the first source entry
   * whose name does not parse.
   */
  function Collect(es: seq<Entry>): Result<seq<BlogPost>, ParseError> {
    if es == [] then Success([])
    else
      match Collect(es[..|es| - 1])
      case Failure(err) => Failure(err)
      case Success(posts) =>
        var e := es[|es| - 1];
        if !IsSource(e) then Success(posts)
        else
          match Load(e)
          case Failure(err) => Failure(err)
          case Success(post) => Success(posts + [post])
  }

  /** An entry is scanned exactly when it is a source entry. */
  lemma {:induction false} SourcesAreTheSourceEntries(es: seq<Entry>)
    ensures forall e :: e in Sources(es) <==> e in es && IsSource(e)
  {
    if es != [] {
      SourcesAreTheSourceEntries(es[..|es| - 1]);
      assert es == es[..|es| - 1] + [es[|es| - 1]];
    }
  }

  /** Every entry of `src` loads. */
  ghost predicate AllLoad(src: seq<Entry>) {
    forall i :: 0 <= i < |src| ==> Load(src[i]).Success?
  }

  lemma AllLoadAppend(src: seq<Entry>, e: Entry)
    ensures AllLoad(src + [e]) <==> AllLoad(src) && Load(e).Success?
  {
    var t := src + [e];
    assert t[|src|] == e;
    assert forall i :: 0 <= i < |src| ==> t[i] == src[i];
  }

  /** The scan succeeds exactly when every source entry loads. */
  lemma {:induction false} CollectSucceedsIffAllLoad(es: seq<Entry>)
    ensures Collect(es).Success? <==> AllLoad(Sources(es))
  {
    if es != [] {
      var front, e := es[..|es| - 1], es[|es| - 1];
      CollectSucceedsIffAllLoad(front);
      if IsSource(e) {
        AllLoadAppend(Sources(front), e);
      }
    }
  }

  /**
   * A successful scan holds one post per source entry, in directory order,
   * each the post that entry loads to.
   */
  lemma {:induction false} CollectOnePostPerSource(es: seq<Entry>)
    requires Collect(es).Success?
    ensures |Collect(es).value| == |Sources(es)|
    ensures forall i :: 0 <= i < |Sources(es)| ==> Load(Sources(es)[i]) == Success(Collect(es).value[i])
  {
    if es != [] {
      var front, e := es[..|es| - 1], es[|es| - 1];
      CollectOnePostPerSource(front);
      if IsSource(e) {
        assert Sources(es) == Sources(front) + [e];
      }
    }
  }

  /** Entry `i` of `src` fails to load with `err`, and every entry before it loads. */
  ghost predicate FirstFailure(src: seq<Entry>, i: int, err: ParseError) {
    0 <= i < |src| && Load(src[i]) == Failure(err) &&
    forall j :: 0 <= j < i ==> Load(src[j]).Success?
  }

  lemma FirstFailureAppend(src: seq<Entry>, e: Entry, i: int, err: ParseError)
    requires FirstFailure(src, i, err)
    ensures FirstFailure(src + [e], i, err)
  {
    assert forall j :: 0 <= j <= i ==> (src + [e])[j] == src[j];
  }

  /** A failure already found in the front of the listing stays the first one. */
  lemma FirstFailureOfFront(es: seq<Entry>, i: int)
    requires es != [] && Collect(es[..|es| - 1]).Failure?
    requires FirstFailure(Sources(es[..|es| - 1]), i, Collect(es[..|es| - 1]).error)
    ensures FirstFailure(Sources(es), i, Collect(es).error)
  {
    var front, e := es[..|es| - 1], es[|es| - 1];
    assert Collect(es) == Collect(front);
    if IsSource(e) {
      assert Sources(es) == Sources(front) + [e];
      FirstFailureAppend(Sources(front), e, i, Collect(front).error);
    }
  }

  /** When the front of the listing loads, a failure is that of the last entry. */
  lemma FirstFailureAtLast(es: seq<Entry>)
    requires es != [] && Collect(es[..|es| - 1]).Success? && Collect(es).Failure?
    ensures FirstFailure(Sources(es), |Sources(es[..|es| - 1])|, Collect(es).error)
  {
    var front, e := es[..|es| - 1], es[|es| - 1];
    var src := Sources(front);
    CollectSucceedsIffAllLoad(front);
    assert IsSource(e);
    assert Load(e) == Failure(Collect(es).error);
    assert Sources(es) == src + [e];
    forall j | 0 <= j < |src| ensures Load(Sources(es)[j]).Success? {
      assert Sources(es)[j] == src[j];
      assert Load(src[j]).Success?;
    }
    assert Sources(es)[|src|] == e;
  }

  /** A failed scan reports the error of the first source entry that does not load. */
  lemma {:induction false} CollectFailsAtFirst(es: seq<Entry>)
    requires Collect(es).Failure?
    ensures exists i :: FirstFailure(Sources(es), i, Collect(es).error)
  {
    var front := es[..|es| - 1];
    if Collect(front).Failure? {
      CollectFailsAtFirst(front);
      var i :| FirstFailure(Sources(front), i, Collect(front).error);
      FirstFailureOfFront(es, i);
    } else {
      FirstFailureAtLast(es);
    }
  }

  /** Every collected post is published under its title with `.html` appended. */
  lemma {:induction false} CollectedPagesNamedByTitle(es: seq<Entry>)
    requires Collect(es).Success?
    ensures forall p :: p in Collect(es).value ==> p.filename == p.title + PageExt
  {
    if es != [] {
      CollectedPagesNamedByTitle(es[..|es| - 1]);
    }
  }

  /** Once a prefix of the listing fails, the whole scan fails with the same error. */
  lemma {:induction false} CollectFailureStays(es: seq<Entry>, k: nat)
    requires k <= |es| && Collect(es[..k]).Failure?
    ensures Collect(es) == Collect(es[..k])
    decreases |es| - k
  {
    if k < |es| {
      assert es[..k + 1][..k] == es[..k];
      CollectFailureStays(es, k + 1);
    } else {
      assert es[..k] == es;
    }
  }

  /**
   * `collectPosts` without the directory read and the page writes: walk the
   * entries in order, skip the ones that are not source files, load the
   * others and stop at the first name that does not parse.
   */
  method CollectPosts(entries: seq<Entry>) returns (r: Result<seq<BlogPost>, ParseError>)
    ensures r == Collect(entries)
  {
    var posts: seq<BlogPost> := [];
    var i := 0;
    while i < |entries|
      invariant 0 <= i <= |entries|
      invariant Collect(entries[..i]) == Success(posts)
    {
      var e := entries[i];
      assert entries[..i + 1][..i] == entries[..i] && entries[..i + 1][i] == e;
      if e.isDir || !HasSuffix(e.name, SourceExt) {
        i := i + 1;
        continue;
      }
      var parsed := ParseFilename(e.name);
      if parsed.Failure? {
        CollectFailureStays(entries, i + 1);
        return Failure(parsed.error);
      }
      var post := parsed.value;
      post := post.(content := e.content);
      post := post.(filename := post.title + PageExt);
      posts := posts + [post];
      i := i + 1;
    }
    assert entries[..i] == entries;
    return Success(posts);
  }

  /** Most recent first: no post is later than one before it. */
  ghost predicate ByRecency(s: seq<BlogPost>) {
    forall i, j :: 0 <= i < j < |s| ==> !After(s[j].timestamp, s[i].timestamp)
  }

  /** The position of a latest post in `a[from..]`. */
  method LatestFrom(a: array<BlogPost>, from: nat) returns (m: nat)
    requires from < a.Length
    ensures from <= m < a.Length
    ensures forall k :: from <= k < a.Length ==> !After(a[k].timestamp, a[m].timestamp)
  {
    m := from;
    var j := from + 1;
    while j < a.Length
      invariant from <= m < j <= a.Length
      invariant forall k :: from <= k < j ==> !After(a[k].timestamp, a[m].timestamp)
    {
      if After(a[j].timestamp, a[m].timestamp) {
        m := j;
      }
      j := j + 1;
    }
  }

  /**
   * The `sort.Slice` call of `main` with the comparator
   * `posts[i].Timestamp.After(posts[j].Timestamp)`: reorders the posts in
   * place, most recent first. Posts of the same date may end up in any order.
   */
  method SortByRecency(a: array<BlogPost>)
    modifies a
    ensures ByRecency(a[..])
    ensures multiset(a[..]) == multiset(old(a[..]))
  {
    var i := 0;
    while i < a.Length
      invariant 0 <= i <= a.Length
      invariant ByRecency(a[..i])
      invariant forall p, q :: 0 <= p < i <= q < a.Length ==> !After(a[q].timestamp, a[p].timestamp)
      invariant multiset(a[..]) == multiset(old(a[..]))
    {
      var m := LatestFrom(a, i);
      a[i], a[m] := a[m], a[i];
      i := i + 1;
    }
    assert a[..i] == a[..];
  }
}
