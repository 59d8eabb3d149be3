# Blog core in Dafny

A Dafny model of the logic inside a personal Next.js blog. The model covers three parts:

- **The post index.** It backs two surfaces: the posts listing page (`app/posts/page.tsx`) and the homepage digest (`app/page.tsx`). The steps are:
  - list the entries of the posts directory and keep the directories;
  - pull the `export const meta = {...};` block out of each post's `page.mdx` and evaluate it;
  - build one record per post, applying fallbacks for missing fields;
  - sort the records most recent first;
  - on the homepage, keep the first three.
- **The table-of-contents tracker** (`components/ui/TableOfContents.tsx`):
  - it captures the page's `h2`/`h3` headings on mount;
  - it keeps one active heading id, updated by intersection-observer batches;
  - it stops when the observer is disconnected;
  - it highlights the entry whose id is the active id.
- **The video thumbnail rewrite** (`getVideoThumbnail` in `components/ui/ProjectVideo.tsx`). It inserts a Cloudinary transformation after the first `/upload/` and swaps a trailing `.webm`/`.mp4` for `.jpg`.

## Files

- `common.dfy`: `Common` holds `Option` and an order-preserving `Filter`.
- `strings.dfy`: `Strings` holds substring search (`FindFrom`), first-occurrence replacement (`ReplaceFirst`, i.e. `String.prototype.replace` with a string pattern and a replacement without `$`, as in the thumbnail rewrite) and suffix facts.
- `metadata.dfy`: `MetaExtract` holds the metadata regex `/export const meta = ({[\s\S]*?});/`. It is modelled as "first start token, then the first `};` after its `{`". The module also holds `extractMetadata`.
- `posts.dfy`: `PostIndex` holds:
  - record building;
  - the index;
  - the comparator and the sort, modelled as a stable insertion sort;
  - the slice;
  - the two surfaces.
- `toc.dfy`: `TableOfContents` holds:
  - heading capture;
  - the tracker state (`Tracker`) and its events (observer batch, navigation click, effect cleanup);
  - `Step`/`Run`.
- `thumbnail.dfy`: `VideoThumbnail` holds the two `replace` steps and `getVideoThumbnail`.

## Behaviour worth knowing

- **A `page.mdx` that cannot be read does not drop its post.**
  - `extractMetadata` catches the read error and returns `null`.
  - `getPosts` then builds a record from fallbacks: title = directory name, empty description and date. See `PostIndex.ReadFailureStillIndexed`.
- **The metadata block must end in `};`.** The regex needs the semicolon.
  - A block written `export const meta = { ... }` without its `;` is found only when some `};` appears later in the page, for example in a code sample. The capture then runs from the block's `{` to that later `};` (`MetaExtract.UnterminatedBlockRunsOn`). Evaluating it usually throws, and the post then gets the fallback record.
  - With no later `};`, nothing matches and the post gets the fallback record too.
  - The lazy `[\s\S]*?` also stops at the first `};`, so a literal holding a nested object that closes with `};` is cut short there.
- **Both surfaces display a formatted date but sort by different strings.** The listing record holds the date already formatted, and its comparator parses that formatted string. The homepage record holds the raw date, and its comparator parses that. The homepage formats the date only when rendering, which is outside this model.
- **The truthiness test is dead code.** The `metaMatch[1]` test never fails: the captured group always starts with `{`.

## Model

| member | source | states |
|---|---|---|
| MetaExtract.FindMetaBlock | app/posts/page.tsx:17 | a captured literal is at least two characters and runs from a `{` to a `}` |
| MetaExtract.FindMetaBlockIsRegexMatch | app/posts/page.tsx:17 | there is no match iff no start token is followed by `};`. Otherwise the capture starts at the FIRST start token (leftmost match) and ends at the first `};` after its `{` (lazy match), running from the `{` through the `}` |
| MetaExtract.BlockAtStart | app/page.tsx:14 | a page that opens with a `};`-terminated block whose body has no `}` yields exactly `{body}`, whatever follows |
| MetaExtract.UnterminatedBlockRunsOn | app/posts/page.tsx:17 | a page that opens with the start token and holds a `};` anywhere later, followed by any text, always matches. The capture starts at that block's `{` |
| MetaExtract.ExtractMetadata | app/posts/page.tsx:14-35 | a read failure, a missing block and an evaluation failure all give no metadata. A found block gives whatever evaluating its literal gives |
| PostIndex.OrElse | app/posts/page.tsx:61-62 | JavaScript's logical-or fallback on a string: the field when it is present and non-empty, else the fallback |
| PostIndex.BuildPost | app/posts/page.tsx:59-65 | slug = directory name and href = `/post/` + slug. The title is given or else the slug, and never empty for a named directory. The description is given or else `''`. The date is `''` when missing, formatted on the listing and raw on the homepage |
| PostIndex.PostDirs | app/posts/page.tsx:52 | the directory entries in listing order: `Common.Filter` with `Common.FilterAppend` and `Common.FilterSingle` |
| PostIndex.IndexPosts | app/posts/page.tsx:52-67 | record i is built from the i-th directory entry and its extracted metadata. With `IndexPostsAppend` and `IndexOne` this fixes listing order and repetitions |
| PostIndex.IndexPostsAppend | app/posts/page.tsx:52-67 | the index of two consecutive stretches of the listing is the first stretch's records followed by the second's |
| PostIndex.IndexOne | app/posts/page.tsx:52-66 | a single entry gives its own record when it is a directory, and nothing otherwise |
| PostIndex.EveryDirectoryIndexed | app/posts/page.tsx:52 | every directory of the listing has a record with its name as slug |
| PostIndex.OnlyDirectoriesIndexed | app/posts/page.tsx:52 | every record's slug names a directory entry: plain files produce none |
| PostIndex.IndexAllDirectories | app/page.tsx:37-51 | when every entry is a directory, record i is built from entry i |
| PostIndex.ReadFailureStillIndexed | app/posts/page.tsx:31-34 | a directory whose page cannot be read still has a record, built entirely from fallbacks |
| PostIndex.Compare | app/posts/page.tsx:70-73 | 0 when either date is empty or does not parse. Otherwise negative iff the first record is later, and 0 iff the timestamps are equal |
| PostIndex.CompareAntisymmetric | app/page.tsx:55-58 | swapping the arguments negates the comparator |
| PostIndex.Insert | app/posts/page.tsx:70-73 | one insertion step adds exactly the inserted record to the multiset |
| PostIndex.SortPosts | app/posts/page.tsx:70-73 | the sort is a permutation of its input |
| PostIndex.InsertNewestFirst | app/posts/page.tsx:70-73 | inserting a dated record into a newest-first list keeps it newest first |
| PostIndex.SortNewestFirst | app/posts/page.tsx:69-73 | when every record is dated, the sorted list is newest first and still all dated |
| PostIndex.InsertUndated | app/posts/page.tsx:71 | a record without a usable date ties with everything and goes after all of them |
| PostIndex.SortUndatedKeepsOrder | app/posts/page.tsx:71 | with no usable date anywhere, the sort keeps the directory order |
| PostIndex.TakeFirst | app/page.tsx:59 | `.slice(0, k)` is a prefix of length `min(n, k)` |
| PostIndex.ListingIsPermutation | app/posts/page.tsx:47-74 | the listing is a reordering of the indexed records, one per directory |
| PostIndex.ListingNewestFirst | app/posts/page.tsx:69-73 | when every listed date parses, the listing is newest first |
| PostIndex.HomeDigestShape | app/page.tsx:53-59 | the digest holds `min(#directories, 3)` records, is a prefix of the sorted index and adds nothing to it |
| PostIndex.HomeDigestNewestFirst | app/page.tsx:53-59 | when every date parses, the digest is ordered newest first |
| PostIndex.TakeFirstKeepsNewest | app/page.tsx:53-59 | the first `k` of an all-dated, newest-first list are all dated, and no record left out is later than a record kept |
| PostIndex.HomeDigestKeepsLatest | app/page.tsx:53-59 | when every date parses, the digest holds the latest posts: no post left out of it is later than a post in it |
| PostIndex.SurfacesDifferOnlyInDate | app/page.tsx:43-49 | the homepage and listing records agree except for the date. A listing record holds the formatted form of the date the homepage record holds raw, and both hold `''` for a missing one. So the listing sort parses formatted strings and the homepage sort parses raw ones |
| PostIndex.ListingPosts | app/posts/page.tsx:47-74 | the listing `getPosts`. Its contract is stated by `ListingIsPermutation` and `ListingNewestFirst` |
| PostIndex.HomePosts | app/page.tsx:33-60 | the homepage `getPosts`. Its contract is stated by `HomeDigestShape`, `HomeDigestNewestFirst`, `HomeDigestKeepsLatest` and `TwoPostScenario` |
| PostIndex.TwoPostIndex | app/page.tsx:39-51 | a post with a title and date block and a post without a block index as `[titled, dated record; fallback record]` |
| PostIndex.TwoPostScenario | app/page.tsx:53-59 | on the homepage the dated post stays ahead of the undated one and both are shown |
| TableOfContents.ParseLevel | components/ui/TableOfContents.tsx:21 | `parseInt(tagName[1])` is 2 iff the tag is `H2` and 3 iff it is `H3` |
| TableOfContents.ToHeading | components/ui/TableOfContents.tsx:18-22 | an entry keeps the element's id and text (`''` for a null text), with level 2 or 3 |
| TableOfContents.HeadingElements | components/ui/TableOfContents.tsx:17 | the `h2`/`h3` elements in document order: `Common.Filter` with `Common.FilterAppend` and `Common.FilterSingle` |
| TableOfContents.CaptureHeadings | components/ui/TableOfContents.tsx:17-23 | entry i has the id and text of the i-th heading element, and a level matching its tag. With `CaptureHeadingsAppend` and `CaptureOne` this fixes document order |
| TableOfContents.CaptureHeadingsAppend | components/ui/TableOfContents.tsx:17-22 | the entries of two consecutive stretches of the page are the first stretch's entries followed by the second's |
| TableOfContents.CaptureOne | components/ui/TableOfContents.tsx:17-22 | a single element gives its own entry when it is an `h2`/`h3`, and nothing otherwise |
| TableOfContents.Indent | components/ui/TableOfContents.tsx:53 | the left padding in rem. Its values are stated by `IndentIsZeroOrOne` |
| TableOfContents.IndentIsZeroOrOne | components/ui/TableOfContents.tsx:53 | `h2` entries are indented 0 rem and `h3` entries 1 rem, both ways |
| TableOfContents.Mount | components/ui/TableOfContents.tsx:13-38 | after mount the active id is `''`, every heading element is observed and the entry list is the captured one |
| TableOfContents.ApplyBatch | components/ui/TableOfContents.tsx:26-32 | a batch with no intersecting entry leaves the active id. Otherwise the active id becomes the target id of the LAST intersecting entry |
| TableOfContents.ApplyBatchAppend | components/ui/TableOfContents.tsx:25-31 | two batches delivered in a row set the same active id as one batch holding both, so the last intersecting entry wins across batches too |
| TableOfContents.Step | components/ui/TableOfContents.tsx:25-41 | a click changes nothing. The cleanup disconnects and keeps the active id. A batch while observing applies the batch and changes nothing else, so the tracker keeps observing. Nothing changes once disconnected. The entries and observed elements never change |
| TableOfContents.BatchesApplyInOrder | components/ui/TableOfContents.tsx:25-40 | until the cleanup, every batch is applied: a run of batches leaves the tracker observing, with the active id that one batch holding all their entries in order would give |
| TableOfContents.Run | components/ui/TableOfContents.tsx:16-41 | the entry list and the observed elements are fixed at mount |
| TableOfContents.RunKeepsActiveObserved | components/ui/TableOfContents.tsx:27-38 | the active id is always `''` or the id of an observed heading element |
| TableOfContents.NoUpdateAfterCleanup | components/ui/TableOfContents.tsx:40 | after the cleanup no later event changes the active id, and the tracker stays disconnected |
| TableOfContents.DisconnectedIsFrozen | components/ui/TableOfContents.tsx:40 | a disconnected tracker is unchanged by any events |
| TableOfContents.IsHighlighted | components/ui/TableOfContents.tsx:68-70 | an entry is highlighted iff its id is the active id. Its consequences are stated by `ActiveEntryIsListed` and `AtMostOneHighlighted` |
| TableOfContents.ActiveEntryIsListed | components/ui/TableOfContents.tsx:68-70 | after mount and any events, a non-empty active id highlights some listed entry |
| TableOfContents.AtMostOneHighlighted | components/ui/TableOfContents.tsx:68-70 | with distinct heading ids, at most one entry is highlighted |
| TableOfContents.SingleIntersectionScenario | components/ui/TableOfContents.tsx:25-40 | after one batch where only heading k intersects, then the cleanup and then a stale batch, heading k is active |
| Common.Filter | app/posts/page.tsx:52 | `Array.prototype.filter`: every kept element satisfies the predicate, every satisfying element is kept, and nothing is added |
| Common.FilterAppend | components/ui/TableOfContents.tsx:17 | filtering a concatenation filters each part in turn, so kept elements keep their order and repetitions |
| Common.FilterSingle | app/posts/page.tsx:52 | a single element is kept exactly when it satisfies the predicate |
| Strings.ReplaceFirst | components/ui/ProjectVideo.tsx:18 | only the first occurrence is replaced, literally (the source's replacement has no `$`), and a string without the pattern is unchanged |
| VideoThumbnail.InsertTransformation | components/ui/ProjectVideo.tsx:18 | the transformation is inserted right after the first `/upload/`, and everything else is kept in order. A URL without `/upload/` is unchanged |
| VideoThumbnail.InsertTransformationIsReplace | components/ui/ProjectVideo.tsx:18 | inserting after the first `/upload/` is exactly replacing that `/upload/` with `/upload/` followed by the transformation |
| VideoThumbnail.MatchVideoExt | components/ui/ProjectVideo.tsx:19 | the regex matches exactly where a trailing `.webm`/`.mp4` starts, and nowhere when there is none |
| VideoThumbnail.SwapExtension | components/ui/ProjectVideo.tsx:19 | a trailing video extension becomes `.jpg` with the stem kept. Any other URL is unchanged |
| VideoThumbnail.Thumbnail | components/ui/ProjectVideo.tsx:13-20 | `getVideoThumbnail`. Its contract is stated by `ThumbnailOfVideoIsJpg`, `ThumbnailOfOtherUrl`, `ThumbnailShape` and `ThumbnailNotIdempotent` |
| VideoThumbnail.SwapExtensionIdempotent | components/ui/ProjectVideo.tsx:19 | swapping twice is swapping once |
| VideoThumbnail.SwapVideoExtension | components/ui/ProjectVideo.tsx:19 | `stem + .webm` and `stem + .mp4` become `stem + .jpg` |
| VideoThumbnail.InsertKeepsVideoName | components/ui/ProjectVideo.tsx:17-19 | the insertion neither creates nor destroys a trailing video extension |
| VideoThumbnail.ThumbnailOfVideoIsJpg | components/ui/ProjectVideo.tsx:13-20 | the thumbnail of a `.webm`/`.mp4` URL ends in `.jpg` |
| VideoThumbnail.ThumbnailOfOtherUrl | components/ui/ProjectVideo.tsx:13-20 | a URL with neither `/upload/` nor a trailing video extension comes back unchanged |
| VideoThumbnail.InsertAfterFirstUpload | components/ui/ProjectVideo.tsx:18 | `host + /upload/ + rest`, with its first `/upload/` after `host`, becomes `host + /upload/ + transformation + rest` |
| VideoThumbnail.ThumbnailShape | components/ui/ProjectVideo.tsx:14-16 | the documented example in general form: `host/upload/path.webm` becomes `host/upload/w_1280,h_720,c_fill,q_auto,f_auto/path.jpg` |
| VideoThumbnail.ThumbnailNotIdempotent | components/ui/ProjectVideo.tsx:17-19 | applying the rewrite to its own output changes it again and makes it at least 33 characters longer (the 34-character transformation is inserted again, and the extension swap removes at most one character) |

## Left out

- File system access (`readdir`, `readFile`) is a parameter, and so are `Promise.all` and the working directory. Each entry carries its directory flag and its page text, or `None` for a read failure. Parallel reads cannot change the result, because `Promise.all` keeps the input order.
- A failing `readdir` (app/posts/page.tsx:49, app/page.tsx:35) is not caught. It rejects `getPosts`, so the page fails to render, unlike a failing `readFile`, whose post falls back. The model takes the listing as given and does not represent this failure.
- `new Function("return " + literal)()` is the parameter `eval`: a function from the captured literal to optional metadata, with `None` for a throw or a nullish result. JavaScript evaluation itself is not modelled, and neither is a non-string field value.
- `new Date(s).getTime()` is the parameter `parse`, with `None` for `NaN`. `formatDate` (`toLocaleDateString('en-US', …)`) is the parameter `format` of `DateView.Formatted`. Neither calendar nor locale rules are modelled.
- PostIndex.SortPosts: `Array.prototype.sort` is modelled as a stable insertion sort. When every record is dated, the comparator is consistent, and every stable sort (which ECMAScript 2019 and later require) gives this same result. When dated and undated records are mixed, the comparator is inconsistent and the engine's result is implementation-defined, so the model's order there is one possible outcome.
- PostIndex.SortNewestFirst, PostIndex.ListingNewestFirst, PostIndex.HomeDigestNewestFirst, PostIndex.HomeDigestKeepsLatest: newest-first (and "the latest three") is claimed only when every record is dated, because for mixed inputs the engine's order is not fixed (see above).
- The homepage's rendering in `components/PersonalLayout.tsx` is left out. It formats the raw date for display with the same `toLocaleDateString` options as `formatDate`, but it is presentation and does not change the records or their order.
- `console.error` logging and the page rendering (motion components, links, CSS classes) are left out: they compute nothing the index depends on.
- TableOfContents.Step: a batch's entries are required to target observed elements, which is what the browser's `IntersectionObserver` delivers. The geometry behind `isIntersecting` (`rootMargin: '-80px 0px -80% 0px'`) is left out; the flag is an input.
- `scrollIntoView` on a click and `preventDefault` are left out: they change the scroll position, which is not part of the tracker's state. A click is modelled as an event that changes nothing.
- React re-rendering and the `useState` setters are modelled as the tracker state changing between events. React's batching of several `setActiveId` calls gives the same last-write-wins result, as `TableOfContents.ApplyBatchAppend` states for consecutive batches.
- `ProjectVideo`'s iOS detection and playback handlers use the user agent and the media element. Only `getVideoThumbnail` is modelled.
