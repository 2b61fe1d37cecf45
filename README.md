# Plain-text blog generator, modelled in Dafny

The generator reads a directory of plain-text posts named `YYYYMMDD_Title.txt`.
It turns each file name into a post, sorts the posts most recent first, and
publishes one HTML page per post, an index page and an RSS 2.0 feed.

This project models the publishing pipeline with the file system, the HTML
templates and the XML serialisation taken away:

- **Strings** (`strings.dfy`): the subset of Go's `strings` package that the
  pipeline uses, on byte strings. A Go `string` is a byte sequence, so lengths
  and cuts are in bytes.
- **Calendar** (`calendar.dfy`): `time.Parse` with the layout `"20060102"` and
  `Format(time.RFC1123Z)`, both for dates at midnight UTC.
- **Types** (`types.dfy`): the `BlogPost` and `RSSConfig` records.
- **Posts** (`posts.dfy`): `parseFilename`, the scan of `collectPosts`, and the
  descending sort of `main`. The scan is a method with a loop. The sort works
  in place on an array.
- **Feed** (`feed.dfy`): `joinURL`, `summarize`, and the construction of the
  channel and its items in `writeRSS`.
- **Site** (`site.dfy`): the order of `main`: collect, sort, then build the
  feed from the sorted posts.

`log.Fatalf` ends the run in the program. The model returns a `Failure` that
carries the reason instead.

A timestamp is a `Date` whose year has four digits (0-9999) and whose day
exists in its month. It stands for midnight UTC of that day, and `After`
compares dates year first, then month, then day.

The code does not check the title: a file named `20240101_.txt` becomes a
post with the empty title (main.go:70-79), and so it does in the model.

## Model

| member | source | states |
|---|---|---|
| Strings.HasSuffix | main.go:54 | a name ends with `.txt` exactly when its last four bytes are `.txt`; `Posts.SourcesAreTheSourceEntries` uses it to pick the entries that are scanned |
| Strings.TrimSuffix | main.go:69 | one trailing `.txt` is removed exactly when the name ends with it; otherwise the name is kept |
| Strings.IndexOf | main.go:70 | the result is the first position of the byte, or none when the byte does not occur |
| Strings.SplitFirst | main.go:70 | `SplitN(s, "_", 2)` gives two parts exactly when `_` occurs; `s` is the first part, `_` and the second part, and the first part holds no `_` |
| Strings.SplitFirstOfJoined | main.go:70 | a name made of a part without `_`, `_` and anything splits back into those two parts |
| Strings.TrimRight | rss.go:83 | the result is a prefix of the base that does not end in `/`, and only slashes were dropped |
| Strings.TrimLeft | rss.go:83 | the result is a suffix of the name that does not start with `/`, and only slashes were dropped |
| Strings.TrimRightUnique | rss.go:83 | the trimmed base is the only prefix with those two properties |
| Strings.TrimLeftUnique | rss.go:83 | the trimmed name is the only suffix with those two properties |
| Strings.TrimRightPadded | rss.go:83 | extra trailing slashes on the base do not change the trimmed base |
| Strings.TrimLeftPadded | rss.go:83 | extra leading slashes on the name do not change the trimmed name |
| Strings.WordLength | rss.go:87 | the run of non-white-space bytes at the front ends at white space or at the end of the string |
| Strings.Fields | rss.go:87 | every field of `strings.Fields` is non-empty and holds no white space; the lemmas below show that the fields are exactly the maximal runs of non-white-space bytes |
| Strings.WordLengthIs | rss.go:87 | the length of the first run is the only length whose prefix holds no white space and is followed by white space or the end |
| Strings.FieldsOfBlank | rss.go:87 | a text made only of white space has no fields |
| Strings.FieldsOfWord | rss.go:87 | a non-empty text without white space is a single field |
| Strings.FieldsAfterBlank | rss.go:87 | white space at the front of a text adds no field |
| Strings.FieldsSplit | rss.go:87 | cutting a text at a non-empty run of white space splits its fields there: `Fields(a + ws + b) == Fields(a) + Fields(b)` |
| Strings.Join | rss.go:87 | `strings.Join`: the parts with the separator between each two; `Strings.JoinAppend` shows how joins of two lists combine, and `Strings.JoinWordsCollapsed` what joining words with one space gives |
| Strings.JoinAppend | rss.go:87 | joining two non-empty lists of parts is joining each and putting the separator between them |
| Strings.FieldsOfLetters | rss.go:87 | a text with a byte that is not white space has at least one field |
| Strings.Collapse | rss.go:87 | defined as `Join(Fields(s), " ")`; the lemmas below state its shape, its bytes, where it splits and that it is idempotent |
| Strings.CollapseSplit | rss.go:87 | a run of white space between two texts that each have a non-space byte collapses to exactly one space: `Collapse(a + ws + b) == Collapse(a) + " " + Collapse(b)` |
| Strings.FieldsKeepLetters | rss.go:87 | the fields, laid end to end, are exactly the non-white-space bytes of the input, in order |
| Strings.JoinWordsCollapsed | rss.go:87 | words joined with single spaces have no leading, trailing or repeated white space, and keep every byte of the words |
| Strings.CollapseShape | rss.go:87 | `Join(Fields(s), " ")` has no leading, trailing or repeated white space, its only white space byte is the space, and it keeps every other byte of `s` in order; `Strings.CollapseSplit` says where the spaces come from |
| Strings.CollapseNoLonger | rss.go:87 | collapsing never makes a text longer |
| Strings.CollapseKeepsCollapsed | rss.go:87 | a text already in collapsed form is left unchanged |
| Strings.CollapseIdempotent | rss.go:87 | collapsing twice gives the same result as collapsing once |
| Calendar.IsLeap | main.go:75 | defined by the Gregorian rule (divisible by 4, and not by 100 unless by 400); `Calendar.DaysIn` states what it decides |
| Calendar.DaysIn | main.go:75 | a month has 28 to 31 days; it has 29 exactly in February of a leap year, 30 exactly in April, June, September and November, and 31 exactly in January, March, May, July, August, October and December |
| Calendar.After | main.go:34 | defined as comparing year, then month, then day; `Calendar.AfterIsStrictTotalOrder` gives its order properties |
| Calendar.AfterIsStrictTotalOrder | main.go:33-35 | `After` is irreflexive, asymmetric and transitive, and of two different dates one is after the other |
| Calendar.ParseDate | main.go:75 | `time.Parse("20060102", …)` on the part before `_`; `Calendar.ParseDateDigits` and `Calendar.ParsedDateDigits` show it accepts exactly the eight digits of a valid date and returns that date |
| Calendar.DateDigits | main.go:75 | a date spelled in the layout `20060102` is eight decimal digits |
| Calendar.ParseDateDigits | main.go:75 | `time.Parse("20060102", …)` of a date's eight digits gives back that date |
| Calendar.ParsedDateDigits | main.go:75 | whatever `time.Parse("20060102", …)` accepts is exactly the eight digits of the date it yields |
| Calendar.FormatRFC1123Z | rss.go:56 | the `RFC1123Z` text of a midnight-UTC date is 31 bytes: the weekday, `, `, the day, the month name, the four-digit year and ` 00:00:00 +0000` |
| Calendar.FormatExample | rss.go:65 | 15 January 2024 is formatted starting with `Mon` |
| Posts.ParseFilename | main.go:68-80 | a failure names the base, the name less one trailing `.txt`; a parsed post has empty content and file name. The four lemmas below give its result for every kind of name |
| Posts.ParseFilenameOfSpelled | main.go:68-80 | a name of eight date digits, `_`, any title and `.txt` parses to exactly that date and title, with later `_` kept in the title |
| Posts.ParseFilenameSpells | main.go:68-80 | whatever parses is, once `.txt` is removed, the date's eight digits, `_` and the title; file name and content are still empty |
| Posts.ParseFilenameNoSeparator | main.go:70-73 | a base name without `_` fails with the invalid-format error naming that base |
| Posts.ParseFilenameBadDate | main.go:75-78 | when the part before the first `_` is not a valid date, parsing fails with the date error naming the base |
| Posts.LoadExample | main.go:58-60 | `20240115_Hello_World.txt` becomes the post `Hello_World` of 15 January 2024, written to `Hello_World.html` |
| Posts.IsSource | main.go:54-56 | defined as: not a directory, and the name ends in `.txt` |
| Posts.Sources | main.go:53-56 | defined as the listing's entries for which `IsSource` holds, in directory order; it is never longer than the listing, and `Posts.SourcesAreTheSourceEntries` shows an entry is kept exactly when it is listed and `IsSource` holds |
| Posts.SourcesAreTheSourceEntries | main.go:53-56 | an entry is scanned exactly when it is not a directory and its name ends in `.txt` |
| Posts.Load | main.go:57-60 | a loaded post has the file's content and the file name `Title + ".html"`; its title and date, or its error, are those of parsing the name |
| Posts.Collect | main.go:47-66 | the scan of `collectPosts` as a function of the listing; the lemmas below state when it fails, with which error, and what it returns |
| Posts.CollectSucceedsIffAllLoad | main.go:47-66 | the scan succeeds exactly when every source entry's name parses |
| Posts.CollectOnePostPerSource | main.go:52-65 | a successful scan holds exactly one post per source entry, in directory order, and post `i` is what source entry `i` loads to |
| Posts.CollectFailsAtFirst | main.go:53-64 | a failed scan reports the error of a source entry that fails to parse, and every source entry before it parses |
| Posts.CollectedPagesNamedByTitle | main.go:60 | every collected post has the file name `Title + ".html"` |
| Posts.CollectFailureStays | main.go:58 | once the scan has failed on a prefix of the listing, the whole scan fails with that error |
| Posts.CollectPosts | main.go:47-66 | the loop over the entries returns exactly the scan result: the posts in order, or the first error |
| Posts.LatestFrom | main.go:33-35 | the chosen position holds a post that no later post in the range is after |
| Posts.SortByRecency | main.go:33-35 | after sorting in place, no post is later than one before it, and the array holds the same posts as before |
| Feed.JoinURL | rss.go:82-84 | defined as `TrimRight(base, "/") + "/" + TrimLeft(name, "/")`; the four lemmas below characterise it |
| Feed.JoinURLOneSlash | rss.go:82-84 | the joined URL has exactly one slash where base and name meet. Before it is the base less only trailing slashes, not ending in `/`. After it is the name less only leading slashes, not starting with `/` |
| Feed.JoinURLIgnoresExtraSlashes | rss.go:82-84 | slashes added at the end of the base or the start of the name do not change the URL |
| Feed.JoinURLPlain | rss.go:82-84 | a base not ending in `/` and a name not starting with `/` are joined as base, `/`, name |
| Feed.JoinURLExample | rss.go:82-84 | `https://example.com/` and `T.html` give `https://example.com/T.html` |
| Feed.Summarize | rss.go:86-93 | a summary is at most 283 bytes. It is the collapsed text when that is at most 280 bytes; otherwise it is the first 280 bytes of it and `...`, 283 bytes in all |
| Feed.SummaryOfShortText | rss.go:86-93 | a text already in collapsed form of at most 280 bytes is its own summary |
| Feed.CutCollapsed | rss.go:92 | a leading part of a collapsed text, followed by `...`, is still in collapsed form |
| Feed.SummaryOfSummary | rss.go:86-93 | summarising is idempotent: every summary, cut or not, summarises to itself |
| Feed.SummaryShape | rss.go:86-93 | every summary, cut or not, is in collapsed form: no leading, trailing or doubled white space, and its only white space byte is the space |
| Feed.SummaryLetters | rss.go:86-93 | the non-space bytes of a summary are all those of the content when it was not cut, and a leading part of them followed by `...` when it was |
| Feed.ItemFor | rss.go:60-67 | the item built for one post; `Feed.ItemsAreItemsOf` states its fields |
| Feed.Items | rss.go:59-68 | there is one item per post |
| Feed.ItemsAreItemsOf | rss.go:59-67 | item `i` has the title of post `i`, link and guid `joinURL(cfg.Link, post.Filename)`, the post's `RFC1123Z` date and `summarize(post.Content)` |
| Feed.IsFeedOf | rss.go:45-68 | what `writeRSS` builds: version `2.0`; title, link, description and language copied from the configuration; a build date exactly when there are posts, and then the `RFC1123Z` text of the first post's date; one item per post, in order |
| Feed.BuildFeed | rss.go:45-68 | the feed it builds satisfies `Feed.IsFeedOf` for the posts and the configuration |
| Site.Generate | main.go:32-37 | a run fails exactly when the scan fails, with its error. Otherwise the index is the collected posts, reordered most recent first, each named `Title + ".html"`. The feed satisfies `Feed.IsFeedOf` for the index: version `2.0`, the configuration's channel fields, items in index order, and, when the index is not empty, the build date of its first, most recent, post |

## Left out

- File system access: creating the output directory, reading the directory listing and the source files, and writing the pages, the index and the feed. The directory listing, with each file's bytes, is an input of the model, and the outputs are values.
- The order of the listing: `os.ReadDir` returns the entries sorted by file name, while the model takes the listing in any order. "Directory order" in the model is therefore file-name order in the program, and it decides which bad name's error is reported first.
- A failure to read a directory or a file is not modelled. Because entries carry their content, reading cannot fail in the model.
- The pages written before a later fatal error: the model returns only the error.
- HTML templating (`writePost`, `writeIndex` and the embedded templates): the index is modelled as the ordered sequence of posts it lists.
- XML serialisation of the feed (`xml.MarshalIndent`, `xml.Header`): the feed is a record. `omitempty` appears only as the empty value of `language` and `lastBuildDate`.
- `filepath.Join` of the input directory with the entry name, followed by `filepath.Base`. This gives back the entry name, because directory entries hold no `/`, so the model parses the entry name directly.
- `defaultRSSConfig` and the completion message of `main`: the configuration is a parameter.
- `Strings.Fields`: only ASCII white space (tab, line feed, vertical tab, form feed, carriage return, space) separates fields. The Unicode white space that `strings.Fields` also recognises in non-ASCII text is not modelled.
- `Calendar.FormatRFC1123Z`: only instants at midnight UTC are formatted, because these are the only timestamps the program creates.
- `Calendar.ParseDate`: Go's `time.Time` carries the parsed date at midnight UTC. The model keeps only the date, so a timestamp's year is limited to what the layout's four digits allow.
- `Posts.SortByRecency`: the order of posts with the same date is not specified. `sort.Slice` is not stable, and it uses a different algorithm than the selection sort modelled here.
