/** The post index behind the listing page (`app/posts/page.tsx`) and the
    homepage digest (`app/page.tsx`): one record per post directory, field
    fallbacks, a most-recent-first sort and, on the homepage, the first three. */
module PostIndex {
  import opened Common
  import opened MetaExtract

  /** The route prefix every post link is built from. */
  const PostRoute: string := "/post/"

  /** How many posts the homepage digest shows. */
  const DigestSize: nat := 3

  /** One entry of the posts directory listing; `content` is the text of the
      entry's `page.mdx`, or `None` when reading it fails. */
  datatype DirEntry = DirEntry(name: string, isDirectory: bool, content: Option<string>)

  /** A canonical post record as the pages render it. */
  datatype Post = Post(slug: string, title: string, description: string, date: string, href: string)

  /** How a surface turns a present metadata date into the record's `date`:
      the homepage keeps it as written, the listing page formats it first
      (`formatDate`, i.e. `toLocaleDateString('en-US', …)`). */
  datatype DateView = Raw | Formatted(format: string -> string)

  /** JavaScript `a || b` on an optional string: `a` unless it is missing or empty. */
  function OrElse(field: Option<string>, fallback: string): (r: string)
    ensures field.Some? && field.value != "" ==> r == field.value
    ensures (field.None? || field.value == "") ==> r == fallback
  {
    match field
    case Some(v) => if v != "" then v else fallback
    case None => fallback
  }

  /** The metadata names a non-empty title / description / date. */
  predicate TitleGiven(meta: Option<RawMeta>) {
    meta.Some? && meta.value.title.Some? && meta.value.title.value != ""
  }
  predicate DescriptionGiven(meta: Option<RawMeta>) {
    meta.Some? && meta.value.description.Some? && meta.value.description.value != ""
  }
  predicate DateGiven(meta: Option<RawMeta>) {
    meta.Some? && meta.value.date.Some? && meta.value.date.value != ""
  }

  /** The record for the post directory `name` whose metadata is `meta`: given
      fields are taken as they are, missing or empty ones fall back to the slug
      (title) or to the empty string (description, date). */
  function BuildPost(name: string, meta: Option<RawMeta>, view: DateView): (p: Post)
    ensures p.slug == name && p.href == PostRoute + p.slug
    ensures TitleGiven(meta) ==> p.title == meta.value.title.value
    ensures !TitleGiven(meta) ==> p.title == name
    ensures name != "" ==> p.title != ""
    ensures DescriptionGiven(meta) ==> p.description == meta.value.description.value
    ensures !DescriptionGiven(meta) ==> p.description == ""
    ensures !DateGiven(meta) ==> p.date == ""
    ensures DateGiven(meta) && view.Raw? ==> p.date == meta.value.date.value && p.date != ""
    ensures DateGiven(meta) && view.Formatted? ==> p.date == view.format(meta.value.date.value)
  {
    var title := if meta.Some? then OrElse(meta.value.title, name) else name;
    var description := if meta.Some? then OrElse(meta.value.description, "") else "";
    var rawDate := if meta.Some? then OrElse(meta.value.date, "") else "";
    var date :=
      if rawDate == "" then ""
      else match view
        case Raw => rawDate
        case Formatted(format) => format(rawDate);
    Post(name, title, description, date, PostRoute + name)
  }

  /** `getPosts` keeps directories only. */
  predicate IsPostDir(e: DirEntry) {
    e.isDirectory
  }

  /** The entries `getPosts` keeps, in listing order. */
  function PostDirs(entries: seq<DirEntry>): (dirs: seq<DirEntry>)
  {
    Filter(entries, IsPostDir)
  }

  /** `getPosts` before sorting: each post directory is read, its metadata
      extracted and its record built, in listing order. */
  function IndexPosts(entries: seq<DirEntry>, eval: string -> Option<RawMeta>, view: DateView): (r: seq<Post>)
    ensures |r| == |PostDirs(entries)|
    ensures forall i :: 0 <= i < |r| ==>
      r[i] == BuildPost(PostDirs(entries)[i].name, ExtractMetadata(PostDirs(entries)[i].content, eval), view)
  {
    var dirs := PostDirs(entries);
    seq(|dirs|, i requires 0 <= i < |dirs| => BuildPost(dirs[i].name, ExtractMetadata(dirs[i].content, eval), view))
  }

  /** The index follows listing order: the records of two consecutive stretches
      of the listing are those of the first stretch, then those of the second. */
  lemma IndexPostsAppend(a: seq<DirEntry>, b: seq<DirEntry>, eval: string -> Option<RawMeta>, view: DateView)
    ensures IndexPosts(a + b, eval, view) == IndexPosts(a, eval, view) + IndexPosts(b, eval, view)
  {
    FilterAppend(a, b, IsPostDir);
    var whole, left, right := IndexPosts(a + b, eval, view), IndexPosts(a, eval, view), IndexPosts(b, eval, view);
    forall i | 0 <= i < |whole| ensures whole[i] == (left + right)[i] {
      if i < |left| {
        assert PostDirs(a + b)[i] == PostDirs(a)[i];
      } else {
        assert PostDirs(a + b)[i] == PostDirs(b)[i - |left|];
      }
    }
  }

  /** One entry contributes its own record when it is a directory, else nothing. */
  lemma IndexOne(e: DirEntry, eval: string -> Option<RawMeta>, view: DateView)
    ensures e.isDirectory ==> IndexPosts([e], eval, view) == [BuildPost(e.name, ExtractMetadata(e.content, eval), view)]
    ensures !e.isDirectory ==> IndexPosts([e], eval, view) == []
  {
    FilterSingle(e, IsPostDir);
  }

  /** Every post directory gets a record ... */
  lemma EveryDirectoryIndexed(entries: seq<DirEntry>, eval: string -> Option<RawMeta>, view: DateView, i: nat)
    requires i < |entries| && entries[i].isDirectory
    ensures exists k :: 0 <= k < |IndexPosts(entries, eval, view)| && IndexPosts(entries, eval, view)[k].slug == entries[i].name
  {
    var dirs := PostDirs(entries);
    assert IsPostDir(entries[i]);
    var k :| 0 <= k < |dirs| && dirs[k] == entries[i];
    assert IndexPosts(entries, eval, view)[k].slug == dirs[k].name;
  }

  /** ... and every record comes from a post directory: plain files produce none. */
  lemma OnlyDirectoriesIndexed(entries: seq<DirEntry>, eval: string -> Option<RawMeta>, view: DateView, k: nat)
    requires k < |IndexPosts(entries, eval, view)|
    ensures exists i :: 0 <= i < |entries| && entries[i].isDirectory && entries[i].name == IndexPosts(entries, eval, view)[k].slug
  {
    var dirs := PostDirs(entries);
    assert IsPostDir(dirs[k]);
    assert dirs[k] in multiset(entries);
    var i :| 0 <= i < |entries| && entries[i] == dirs[k];
    assert IndexPosts(entries, eval, view)[k].slug == dirs[k].name;
  }

  /** A record whose date is non-empty and parses (`new Date(date)` is not `NaN`);
      `parse` stands for `new Date(…).getTime()`. */
  predicate Dated(p: Post, parse: string -> Option<int>) {
    p.date != "" && parse(p.date).Some?
  }

  predicate AllDated(posts: seq<Post>, parse: string -> Option<int>) {
    forall p :: p in posts ==> Dated(p, parse)
  }

  /** The sort comparator: 0 when either date is empty; otherwise the later
      timestamp first. A `NaN` difference (a date that does not parse) is read
      by `Array.prototype.sort` as 0. */
  function Compare(a: Post, b: Post, parse: string -> Option<int>): (c: int)
    ensures !Dated(a, parse) || !Dated(b, parse) ==> c == 0
    ensures Dated(a, parse) && Dated(b, parse) ==>
      && (c < 0 <==> parse(a.date).value > parse(b.date).value)
      && (c == 0 <==> parse(a.date).value == parse(b.date).value)
  {
    if a.date == "" || b.date == "" then 0
    else match (parse(a.date), parse(b.date))
      case (Some(ta), Some(tb)) => tb - ta
      case _ => 0
  }

  /** Swapping the arguments negates the comparator. */
  lemma CompareAntisymmetric(a: Post, b: Post, parse: string -> Option<int>)
    ensures Compare(a, b, parse) == -Compare(b, a, parse)
  {
  }

  /** Inserts `x` in front of the first record it strictly precedes, i.e. after
      every record it ties with (one step of a stable insertion sort). */
  function Insert(x: Post, sorted: seq<Post>, parse: string -> Option<int>): (r: seq<Post>)
    ensures multiset(r) == multiset(sorted) + multiset{x}
    ensures |r| == |sorted| + 1
  {
    if sorted == [] then [x]
    else if Compare(x, sorted[0], parse) < 0 then [x] + sorted
    else
      assert sorted == [sorted[0]] + sorted[1..];
      [sorted[0]] + Insert(x, sorted[1..], parse)
  }

  /** `posts.sort(comparator)`, modelled as a stable insertion sort. */
  function SortPosts(posts: seq<Post>, parse: string -> Option<int>): (r: seq<Post>)
    ensures multiset(r) == multiset(posts)
    ensures |r| == |posts|
  {
    if posts == [] then []
    else
      var n := |posts| - 1;
      assert posts == posts[..n] + [posts[n]];
      Insert(posts[n], SortPosts(posts[..n], parse), parse)
  }

  /** Among dated records, later timestamps come first. */
  predicate NewestFirst(posts: seq<Post>, parse: string -> Option<int>) {
    forall i, j :: 0 <= i < j < |posts| && Dated(posts[i], parse) && Dated(posts[j], parse) ==>
      parse(posts[i].date).value >= parse(posts[j].date).value
  }

  /** Every dated record of `posts` is no later than `t`. */
  predicate NoLaterThan(t: int, posts: seq<Post>, parse: string -> Option<int>) {
    forall k :: 0 <= k < |posts| && Dated(posts[k], parse) ==> t >= parse(posts[k].date).value
  }

  lemma ConsNewestFirst(h: Post, tail: seq<Post>, parse: string -> Option<int>)
    requires NewestFirst(tail, parse)
    requires Dated(h, parse) ==> NoLaterThan(parse(h.date).value, tail, parse)
    ensures NewestFirst([h] + tail, parse)
  {
    var r := [h] + tail;
    forall i, j | 0 <= i < j < |r| && Dated(r[i], parse) && Dated(r[j], parse)
      ensures parse(r[i].date).value >= parse(r[j].date).value
    {
      assert r[j] == tail[j - 1];
      if i > 0 {
        assert r[i] == tail[i - 1];
      }
    }
  }

  lemma NoLaterThanMembers(t: int, posts: seq<Post>, parse: string -> Option<int>)
    requires forall p :: p in posts && Dated(p, parse) ==> t >= parse(p.date).value
    ensures NoLaterThan(t, posts, parse)
  {
    forall k | 0 <= k < |posts| && Dated(posts[k], parse)
      ensures t >= parse(posts[k].date).value
    {
      assert posts[k] in posts;
    }
  }

  lemma {:induction false} InsertNewestFirst(x: Post, sorted: seq<Post>, parse: string -> Option<int>)
    requires Dated(x, parse) && NewestFirst(sorted, parse)
    ensures NewestFirst(Insert(x, sorted, parse), parse)
  {
    if sorted == [] {
    } else if Compare(x, sorted[0], parse) < 0 {
      forall p | p in sorted && Dated(p, parse) ensures parse(x.date).value >= parse(p.date).value {
        var m :| 0 <= m < |sorted| && sorted[m] == p;
      }
      NoLaterThanMembers(parse(x.date).value, sorted, parse);
      ConsNewestFirst(x, sorted, parse);
    } else {
      var rest := sorted[1..];
      assert sorted == [sorted[0]] + rest;
      assert NewestFirst(rest, parse) by {
        forall i, j | 0 <= i < j < |rest| && Dated(rest[i], parse) && Dated(rest[j], parse)
          ensures parse(rest[i].date).value >= parse(rest[j].date).value
        {
          assert rest[i] == sorted[i + 1] && rest[j] == sorted[j + 1];
        }
      }
      InsertNewestFirst(x, rest, parse);
      var tail := Insert(x, rest, parse);
      if Dated(sorted[0], parse) {
        var t := parse(sorted[0].date).value;
        forall p | p in tail && Dated(p, parse) ensures t >= parse(p.date).value {
          assert p in multiset(rest) + multiset{x};
          if p != x {
            var m :| 0 <= m < |rest| && rest[m] == p;
            assert sorted[m + 1] == p;
          }
        }
        NoLaterThanMembers(t, tail, parse);
      }
      ConsNewestFirst(sorted[0], tail, parse);
    }
  }

  /** When every record is dated, the sort puts them newest first. */
  lemma {:induction false} SortNewestFirst(posts: seq<Post>, parse: string -> Option<int>)
    requires AllDated(posts, parse)
    ensures NewestFirst(SortPosts(posts, parse), parse)
    ensures AllDated(SortPosts(posts, parse), parse)
  {
    if posts != [] {
      var n := |posts| - 1;
      assert forall p :: p in posts[..n] ==> p in posts;
      SortNewestFirst(posts[..n], parse);
      assert posts[n] in posts;
      assert Dated(posts[n], parse);
      InsertNewestFirst(posts[n], SortPosts(posts[..n], parse), parse);
      var r := SortPosts(posts, parse);
      forall p | p in r ensures Dated(p, parse) {
        assert p in multiset(posts);
      }
    }
  }

  /** A record without a usable date ties with everything, so it goes last. */
  lemma {:induction false} InsertUndated(x: Post, sorted: seq<Post>, parse: string -> Option<int>)
    requires !Dated(x, parse)
    ensures Insert(x, sorted, parse) == sorted + [x]
  {
    if sorted != [] {
      InsertUndated(x, sorted[1..], parse);
      assert sorted == [sorted[0]] + sorted[1..];
    }
  }

  /** With no usable date anywhere, the sort keeps the directory order. */
  lemma {:induction false} SortUndatedKeepsOrder(posts: seq<Post>, parse: string -> Option<int>)
    requires forall p :: p in posts ==> !Dated(p, parse)
    ensures SortPosts(posts, parse) == posts
  {
    if posts != [] {
      var n := |posts| - 1;
      var init, last := posts[..n], posts[n];
      assert posts == init + [last];
      forall p | p in init ensures !Dated(p, parse) {
        assert p in posts;
      }
      SortUndatedKeepsOrder(init, parse);
      InsertUndated(last, init, parse);
      SortPostsLast(posts, parse);
    }
  }

  /** The sort inserts the last record into the sorted rest. */
  lemma SortPostsLast(posts: seq<Post>, parse: string -> Option<int>)
    requires posts != []
    ensures SortPosts(posts, parse) == Insert(posts[|posts| - 1], SortPosts(posts[..|posts| - 1], parse), parse)
  {
  }

  /** `.slice(0, k)`: the first `k` elements, or all of them when fewer. */
  function TakeFirst(posts: seq<Post>, k: nat): (r: seq<Post>)
    ensures |r| == if |posts| < k then |posts| else k
    ensures r <= posts
  {
    if |posts| < k then posts else posts[..k]
  }

  /** No dated record of `all` past the first `|kept|` is later than a dated
      record of `kept`. */
  predicate NoneLeftOutLater(kept: seq<Post>, all: seq<Post>, parse: string -> Option<int>) {
    forall i, j :: 0 <= i < |kept| <= j < |all| && Dated(kept[i], parse) && Dated(all[j], parse) ==>
      parse(kept[i].date).value >= parse(all[j].date).value
  }

  /** Taking the first `k` of an all-dated, newest-first list keeps the newest:
      every record kept is dated, and no record left out is later than one kept. */
  lemma TakeFirstKeepsNewest(sorted: seq<Post>, k: nat, parse: string -> Option<int>)
    requires NewestFirst(sorted, parse) && AllDated(sorted, parse)
    ensures AllDated(TakeFirst(sorted, k), parse)
    ensures NoneLeftOutLater(TakeFirst(sorted, k), sorted, parse)
  {
    var kept := TakeFirst(sorted, k);
    forall p | p in kept ensures Dated(p, parse) {
      var i :| 0 <= i < |kept| && kept[i] == p;
      assert kept[i] == sorted[i];
    }
    forall i, j | 0 <= i < |kept| <= j < |sorted| && Dated(kept[i], parse) && Dated(sorted[j], parse)
      ensures parse(kept[i].date).value >= parse(sorted[j].date).value
    {
      assert kept[i] == sorted[i];
    }
  }

  /** The listing page's `getPosts`: formatted dates, sorted, all posts. */
  function ListingPosts(entries: seq<DirEntry>, eval: string -> Option<RawMeta>,
                        format: string -> string, parse: string -> Option<int>): seq<Post>
  {
    SortPosts(IndexPosts(entries, eval, Formatted(format)), parse)
  }

  /** The homepage's `getPosts`: raw dates, sorted, the first three. */
  function HomePosts(entries: seq<DirEntry>, eval: string -> Option<RawMeta>, parse: string -> Option<int>): seq<Post>
  {
    TakeFirst(SortPosts(IndexPosts(entries, eval, Raw), parse), DigestSize)
  }

  /** The listing is a reordering of the indexed records: nothing is added,
      dropped or altered. */
  lemma ListingIsPermutation(entries: seq<DirEntry>, eval: string -> Option<RawMeta>,
                             format: string -> string, parse: string -> Option<int>)
    ensures multiset(ListingPosts(entries, eval, format, parse))
         == multiset(IndexPosts(entries, eval, Formatted(format)))
    ensures |ListingPosts(entries, eval, format, parse)| == |PostDirs(entries)|
  {
  }

  /** When every listed record has a date that parses, the listing is newest first. */
  lemma ListingNewestFirst(entries: seq<DirEntry>, eval: string -> Option<RawMeta>,
                           format: string -> string, parse: string -> Option<int>)
    requires AllDated(IndexPosts(entries, eval, Formatted(format)), parse)
    ensures NewestFirst(ListingPosts(entries, eval, format, parse), parse)
  {
    SortNewestFirst(IndexPosts(entries, eval, Formatted(format)), parse);
  }

  /** The homepage digest holds `min(#post directories, 3)` records, is a prefix
      of the sorted index, and takes nothing from outside it. */
  lemma HomeDigestShape(entries: seq<DirEntry>, eval: string -> Option<RawMeta>, parse: string -> Option<int>)
    ensures var n := |PostDirs(entries)|;
      |HomePosts(entries, eval, parse)| == if n < DigestSize then n else DigestSize
    ensures HomePosts(entries, eval, parse) <= SortPosts(IndexPosts(entries, eval, Raw), parse)
    ensures multiset(HomePosts(entries, eval, parse)) <= multiset(IndexPosts(entries, eval, Raw))
  {
    var sorted := SortPosts(IndexPosts(entries, eval, Raw), parse);
    var digest := HomePosts(entries, eval, parse);
    assert sorted == digest + sorted[|digest|..];
    assert multiset(sorted) == multiset(digest) + multiset(sorted[|digest|..]);
  }

  /** The homepage keeps the three latest posts: when every indexed record has
      a date that parses, every digest post is dated and no post left out of
      the digest is later than a post in it. */
  lemma HomeDigestKeepsLatest(entries: seq<DirEntry>, eval: string -> Option<RawMeta>, parse: string -> Option<int>)
    requires AllDated(IndexPosts(entries, eval, Raw), parse)
    ensures AllDated(HomePosts(entries, eval, parse), parse)
    ensures NoneLeftOutLater(HomePosts(entries, eval, parse), SortPosts(IndexPosts(entries, eval, Raw), parse), parse)
  {
    var sorted := SortPosts(IndexPosts(entries, eval, Raw), parse);
    SortNewestFirst(IndexPosts(entries, eval, Raw), parse);
    TakeFirstKeepsNewest(sorted, DigestSize, parse);
  }

  /** When every indexed record has a date that parses, the digest is newest first. */
  lemma HomeDigestNewestFirst(entries: seq<DirEntry>, eval: string -> Option<RawMeta>, parse: string -> Option<int>)
    requires AllDated(IndexPosts(entries, eval, Raw), parse)
    ensures NewestFirst(HomePosts(entries, eval, parse), parse)
  {
    var sorted := SortPosts(IndexPosts(entries, eval, Raw), parse);
    SortNewestFirst(IndexPosts(entries, eval, Raw), parse);
    var digest := HomePosts(entries, eval, parse);
    forall i, j | 0 <= i < j < |digest| && Dated(digest[i], parse) && Dated(digest[j], parse)
      ensures parse(digest[i].date).value >= parse(digest[j].date).value
    {
      assert digest[i] == sorted[i] && digest[j] == sorted[j];
    }
  }

  /** The two surfaces index the same records except for the date: a listing
      record holds `format` of the date the homepage record holds raw, and both
      hold `''` for a missing one. So the two sorts parse different strings:
      the listing parses the formatted date, the homepage the raw one. */
  lemma SurfacesDifferOnlyInDate(entries: seq<DirEntry>, eval: string -> Option<RawMeta>, format: string -> string)
    ensures var home := IndexPosts(entries, eval, Raw);
      var listing := IndexPosts(entries, eval, Formatted(format));
      && |home| == |listing|
      && forall i :: 0 <= i < |home| ==>
        && listing[i].(date := home[i].date) == home[i]
        && (home[i].date == "" ==> listing[i].date == "")
        && (home[i].date != "" ==> listing[i].date == format(home[i].date))
  {
  }

  /** A post directory whose `page.mdx` cannot be read still gets a record,
      built entirely from fallbacks. */
  lemma ReadFailureStillIndexed(entries: seq<DirEntry>, eval: string -> Option<RawMeta>, view: DateView, i: nat)
    requires i < |entries| && entries[i].isDirectory && entries[i].content.None?
    ensures Post(entries[i].name, entries[i].name, "", "", PostRoute + entries[i].name) in IndexPosts(entries, eval, view)
  {
    var dirs := PostDirs(entries);
    assert entries[i] in dirs;
    var k :| 0 <= k < |dirs| && dirs[k] == entries[i];
    assert IndexPosts(entries, eval, view)[k] in IndexPosts(entries, eval, view);
  }

  /** When every entry is a directory, the index builds the i-th record from
      the i-th entry. */
  lemma IndexAllDirectories(entries: seq<DirEntry>, eval: string -> Option<RawMeta>, view: DateView)
    requires forall i :: 0 <= i < |entries| ==> entries[i].isDirectory
    ensures |IndexPosts(entries, eval, view)| == |entries|
    ensures forall i :: 0 <= i < |entries| ==>
      IndexPosts(entries, eval, view)[i] == BuildPost(entries[i].name, ExtractMetadata(entries[i].content, eval), view)
  {
    assert forall i :: 0 <= i < |entries| ==> IsPostDir(entries[i]);
  }

  /** A post directory `hello-world` whose page holds a metadata block whose
      literal evaluates to a title and a date (as `BlockAtStart` shows for a
      page that opens with one), and a directory `no-meta` whose page has no
      block: the index holds two records with the fallbacks applied. */
  lemma TwoPostIndex(hello: string, noMeta: string, title: string, date: string, eval: string -> Option<RawMeta>)
    requires title != "" && date != ""
    requires FindMetaBlock(hello).Some?
    requires eval(FindMetaBlock(hello).value) == Some(RawMeta(Some(title), None, Some(date)))
    requires FindMetaBlock(noMeta).None?
    ensures IndexPosts([DirEntry("hello-world", true, Some(hello)), DirEntry("no-meta", true, Some(noMeta))], eval, Raw)
         == [Post("hello-world", title, "", date, PostRoute + "hello-world"), Post("no-meta", "no-meta", "", "", PostRoute + "no-meta")]
  {
    var entries := [DirEntry("hello-world", true, Some(hello)), DirEntry("no-meta", true, Some(noMeta))];
    IndexAllDirectories(entries, eval, Raw);
    var meta := ExtractMetadata(Some(hello), eval);
    assert meta == Some(RawMeta(Some(title), None, Some(date)));
    assert ExtractMetadata(Some(noMeta), eval) == None;
    var index := IndexPosts(entries, eval, Raw);
    var first := Post("hello-world", title, "", date, PostRoute + "hello-world");
    var second := Post("no-meta", "no-meta", "", "", PostRoute + "no-meta");
    assert index[0] == BuildPost("hello-world", meta, Raw) == first;
    assert index[1] == BuildPost("no-meta", None, Raw) == second;
    assert |index| == 2;
  }

  /** The same two posts on the homepage: the dated post stays ahead of the
      undated one, and both are shown. */
  lemma TwoPostScenario(hello: string, noMeta: string, title: string, date: string,
                        eval: string -> Option<RawMeta>, parse: string -> Option<int>)
    requires title != "" && date != ""
    requires FindMetaBlock(hello).Some?
    requires eval(FindMetaBlock(hello).value) == Some(RawMeta(Some(title), None, Some(date)))
    requires FindMetaBlock(noMeta).None?
    ensures HomePosts([DirEntry("hello-world", true, Some(hello)), DirEntry("no-meta", true, Some(noMeta))], eval, parse)
         == [Post("hello-world", title, "", date, PostRoute + "hello-world"), Post("no-meta", "no-meta", "", "", PostRoute + "no-meta")]
  {
    TwoPostIndex(hello, noMeta, title, date, eval);
    var first := Post("hello-world", title, "", date, PostRoute + "hello-world");
    var second := Post("no-meta", "no-meta", "", "", PostRoute + "no-meta");
    assert [first, second][..1] == [first];
    assert SortPosts([first], parse) == [first];
    InsertUndated(second, [first], parse);
  }
}
