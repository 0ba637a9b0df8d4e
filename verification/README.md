# ripwik page crawl, modelled in Dafny

`ripwik` mirrors a wiki onto disk. It starts from one page and repeatedly
fetches every pending page, in rounds. For each page it scans the raw text
for `href=` and `src=` attribute values. It keeps slash-led page links
without `:`, `?` or `#`, and slash-led image references. Both filters are
meant to stay on the site, but a protocol-relative `//host/...` reference
passes them. New links go back into the pending set, and images go
into a resource set that is fetched once the rounds are over. Every suffix
is written to the path `ripped` + suffix (or `ripped/` + suffix), built by
string concatenation. That path is inside `ripped/` unless the suffix has a
`..` segment: `/../x` passes the link filter and is written to
`ripped/../x`, outside the mirror.

This project models that page-processing core as pure functions:

- `Extract`: the attribute scanner. It covers the `match_indices` search,
  the read from a fixed offset up to the next `"`, the candidate list, and
  the scan as written, where an unterminated value panics.
- `Filters`: the two `retain` filters.
- `PathMapper`: `str_to_path_buf`.
- `Frontier`: the three sets (`WEBPAGES_TO_RIP`, `ALREADY_RIPPED`,
  `RESOURCES_TO_RIP`), one `rip` call as a step function, and a round as a
  fold of `rip` over the round's snapshot. The step sees a page only as
  the `links` and `resources` vectors its scan produced, through a
  parameter `fetch: string -> Option<Page>`.
- `Crawl`: the page-phase loop of `main`, as a method that terminates on a
  finite site. It builds `fetch` from the site and the scan.
- `Seqs` and `Wrappers`: `retain` as an order-preserving filter, plus
  `Option`.

Text is `string` (`seq<char>`) and assumed ASCII, so the byte offsets of
`match_indices` and the character index of `chars().nth` agree. The network
is a parameter `site: string -> Option<string>`. It maps a suffix to the
page text, or to `None` when the GET, the body read or the `write_all`
fails. In the code only the `unwrap`s are fatal; errors from `?` end that
page's `rip` and `join_all` drops them. So a failed page is marked visited
and contributes nothing, and the crawl goes on.

## Model

| member | source | states |
|---|---|---|
| Extract.MatchIndices | src/main.rs:95 | every reported index is an occurrence of the marker at or after the start, and the indices strictly increase |
| Extract.OverlapRepeatsFirstChar | src/main.rs:95 | two overlapping occurrences of a marker force its first character to reappear inside it |
| Extract.MatchIndicesComplete | src/main.rs:95 | for a marker whose first character does not reappear, the non-overlapping search still reports every occurrence |
| Extract.MatchIndicesExact | src/main.rs:94-95 | for `href=` and `src=`, an index is reported iff the marker occurs there |
| Extract.MatchIndicesSkip | src/main.rs:95 | the search reports nothing across a stretch that never contains the marker's first character |
| Extract.FirstQuote | src/main.rs:101-108 | returns the first `"` at or after k, or None iff there is no quote from k to the end |
| Extract.ScanAt | src/main.rs:96-110 | yields a value iff start is in bounds and a `"` follows it; that value is `text[start..j]` for the first quote j > start, so it is non-empty and begins with `text[start]`, even if that is a quote |
| Extract.ReadAttribute | src/main.rs:97-109 | the push/advance/stop-at-quote loop returns exactly `text[start..j]` for the first quote j > start; it returns None exactly where an `unwrap` would panic |
| Extract.Collect | src/main.rs:94-111 | a string is collected iff some match index reads to it; malformed matches are dropped |
| Extract.Candidates | src/main.rs:94-136 | every candidate is read from a real occurrence of the marker |
| Extract.CandidatesExact | src/main.rs:94-111 | a string is a candidate iff some occurrence of the marker reads to it at the marker's offset (6 for `href=`, 5 for `src=`) |
| Extract.ExtractAsWritten | src/main.rs:94-111 | the scan of one marker as `rip` runs it: when it does not panic it yields one candidate per match, and they are exactly the corrected candidates |
| Extract.CollectAsWrittenPanics | src/main.rs:96-110 | the scan as written panics iff some index it reads from has no terminated value |
| Extract.AsWrittenPanicsExactly | src/main.rs:94-111 | for `href=` and `src=`, the scan as written panics iff some occurrence of the marker is too close to the end or has no closing quote |
| Extract.CollectAsWritten | src/main.rs:96-110 | succeeds iff every match reads to a terminated value; it then yields one candidate per match, in order |
| Extract.AsWrittenAgrees | src/main.rs:94-111 | whenever the scan as written does not panic, it yields exactly the corrected candidate list |
| Extract.UnterminatedLinkPanics | src/main.rs:104 | on `href="/x"href="/y` the scan as written panics, while the corrected list is `["/x"]` |
| Seqs.Filter | src/main.rs:113-116 | `retain` keeps x iff x is in the input and satisfies the predicate, with every repeat of a kept x (same multiplicity) and none of a dropped one; the result is an order-preserving subsequence |
| Seqs.Elements | src/main.rs:147-158 | `extend` of a set by a vector adds exactly the vector's elements |
| Filters.KeepLink | src/main.rs:113-116 | the link filter accepts c iff c starts with `/` and no character of c is `:`, `?` or `#` |
| Filters.KeepResource | src/main.rs:138-145 | the image filter accepts c iff c starts with `/` and ends in one of `.jpg`, `.png`, `.jpeg`, `.gif`, `.svg` |
| Filters.ProtocolRelativePasses | src/main.rs:113-145 | a protocol-relative `//upload.example.org/a` passes the link filter, and `//upload.example.org/a.png` the image filter |
| Filters.PageLinks | src/main.rs:113-116 | a link is kept iff it is a href candidate that starts with `/` and contains no `:`, `?` or `#`; order is preserved |
| Filters.PageResources | src/main.rs:138-145 | a resource is kept iff it is a src candidate accepted by the image filter; order is preserved |
| Filters.ScanPage | src/main.rs:94-145 | the `links` vector of a page holds only suffixes that pass the link filter, and the `resources` vector only ones that pass the image filter |
| Filters.PageLinkExact | src/main.rs:94-116 | l is a page link iff it passes the link filter and some `href=` occurrence reads to it |
| Filters.PageResourceExact | src/main.rs:119-145 | x is a resource iff it starts with `/`, ends in `.jpg`, `.png`, `.jpeg`, `.gif` or `.svg`, and some `src=` occurrence reads to it |
| Filters.ExtensionIsCaseSensitive | src/main.rs:139-144 | `/a.JPG` is rejected, `/a.jpeg` is accepted, and `a.png` (no leading slash) is rejected |
| PathMapper.PathOf | src/main.rs:182-188 | the path always begins with `ripped/`, followed by the suffix with one leading slash consumed, or by the whole suffix when it has none |
| PathMapper.SuffixOfPathOf | src/main.rs:183-184 | a slash-led suffix is recovered from its path |
| PathMapper.PathOfInjective | src/main.rs:182-188 | distinct slash-led suffixes, which are all the filters let through, map to distinct path strings |
| PathMapper.CollapseSlashes | src/main.rs:82-87 | the path `PathBuf` compares by, as far as repeated separators go: it has no `//` left and keeps the first character |
| PathMapper.CollapseKeepsNames | src/main.rs:82-87 | collapsing drops only separators: the result is a subsequence of the path with the same non-separator characters in the same order |
| PathMapper.CollapseFixesClean | src/main.rs:82-87 | a path with no repeated separator is its own collapsed form |
| PathMapper.CollapseIdempotent | src/main.rs:82-87 | collapsing separators twice is the same as once |
| PathMapper.DoubleSlashSharesFile | src/main.rs:182-188 | for every slash-led suffix s, `/` + s and s get distinct path strings but name the same file |
| PathMapper.DotDotLeavesMirror | src/main.rs:182-188 | `/../x` passes the link filter and is mapped to `ripped/../x`, a path outside the mirror directory |
| PathMapper.SlashlessSuffixCollides | src/main.rs:183-187 | `/a` and `a` map to the same path, so the mapping is not injective in general |
| Frontier.Seed | src/main.rs:40-43 | before the first round only the start is known, it is pending, and there are no resources |
| Frontier.SeedEstablishes | src/main.rs:40-43 | the seeded frontier satisfies the crawl invariants: every link of a visited page is known, only the start is known, and the resource set is exactly what the visited pages reference (nothing) |
| Frontier.Rip | src/main.rs:74-158 | after `rip(s)`, s is visited and not pending, and visited grows by exactly s; pending is the old pending minus s plus the page's links not yet visited, so a self-link is never re-enqueued; resources grow by exactly the page's resources; pending and visited stay disjoint |
| Frontier.Round | src/main.rs:54-57 | a round adds exactly its snapshot to visited, only grows the resource set, and keeps pending and visited disjoint |
| Frontier.RoundKeepsExpanded | src/main.rs:151-158 | after a round, every link of every visited page is visited or pending |
| Frontier.RoundStaysWithin | src/main.rs:151-158 | a round that starts inside a link-closed set of pages never leaves it |
| Frontier.RoundKeepsOnlyLinks | src/main.rs:155-158 | every suffix the crawl knows, other than the start, passed the link filter |
| Frontier.RipHarvests | src/main.rs:147-150 | after `rip(s)`, the resource set is exactly the resources of the visited pages |
| Frontier.RoundHarvests | src/main.rs:147-150 | after a round, the resource set is exactly the resources of the visited pages |
| Frontier.RoundNeverRefetches | src/main.rs:151-154 | over a duplicate-free snapshot of pending, every `rip` of the round meets a page not yet visited, and visited grows by the snapshot's size |
| Crawl.FetchFrom | src/main.rs:89-145 | a page yields a scan iff its fetch succeeds, and the scan's resources all pass the image filter |
| Crawl.FetchFromFiltered | src/main.rs:89-116 | a fetched page contributes to the crawl only links that passed the link filter |
| Crawl.SnapshotOrder | src/main.rs:47-48 | the snapshot is enumerated once each, in some order, with no duplicates |
| Crawl.Crawl | src/main.rs:40-58 | on a finite link-closed site, the loop ends with pending empty. Visited is then the least link-closed set containing the start. There were no more rounds than visited pages, and each visited page was fetched exactly once. The resource set is exactly the resources of the visited pages |

## Left out

- Command-line parsing (src/main.rs:20-35): configuration only.
- The output-directory reset, `create_dir_all`, `File::create` and the writes (src/main.rs:36-39, 82-90, 169-177): filesystem I/O. A failed `write_all` (line 90, through `?`) is folded into a `None` from `site`.
- Frontier.Rip: assumes the `unwrap`s of `root.join`, `create_dir_all` and `File::create` (src/main.rs:82-87) never panic. They can: if pages `/a` and `/a/b` are both reachable, either `create_dir_all("ripped/a")` meets an existing file or `File::create("ripped/a")` meets a directory, and the whole crawl aborts.
- Crawl.Crawl: rests on the same assumption, so its conclusion describes only crawls in which none of those `unwrap`s fires.
- PathMapper.PathOfInjective: distinct suffixes give distinct path strings, not distinct files. `PathBuf` compares by components, so `/x` and `//x` share a file (proved as `PathMapper.DoubleSlashSharesFile`). Components also drop `.` segments and a trailing `/`, which `CollapseSlashes` does not model. Nor does it model `..`. The file system resolves `..`, so `/a/../b` and `/b` both pass the link filter and, once `ripped/a` exists, name the same file. `/../x` is written outside `ripped/` altogether (`PathMapper.DotDotLeavesMirror`).
- HTTP via reqwest, and `Url::parse` / `Url::join` (src/main.rs:44-45, 83, 89, 170, 176): foreign library calls. The page text is the `site` parameter.
- tokio, rayon `par_bridge`, `join_all` and the `RwLock` globals (src/main.rs:14-18, 54-57, 61-64): concurrency. A round runs its pages one after another. This excludes the accepted race in which two tasks of one round both enqueue the same unvisited link, or a link is enqueued again after a sibling task has visited it.
- Non-ASCII text (src/main.rs:95-98): `match_indices` gives byte offsets but `chars().nth` counts characters. The model assumes the two agree.
- The resource phase (src/main.rs:59-64, 163-179): I/O only. Its one piece of logic is the path mapper, which is modelled.
- Crawl.Crawl: it requires a finite link-closed set of pages containing the start. On a site with infinitely many reachable pages the loop would not end, and the model says nothing about that case.

## Findings

| source | as written | input that shows it | evidently intended | confidence | as-written member | corrected member |
|---|---|---|---|---|---|---|
| src/main.rs:98-104 | an attribute value with no closing `"` (or a marker too close to the end of the text) makes `chars().nth(..).unwrap()` panic; the panic aborts the whole crawl, and the page's earlier, well-formed links are lost with it | a page whose text is `href="/x"href="/y` | drop the malformed match and keep `/x` | high (not executed) | Extract.UnterminatedLinkPanics | Extract.CandidatesExact |

`Extract.CollectAsWritten` is the scan as written. `Extract.Collect` and
`Extract.Candidates` are the corrected scan, and `Filters` and `Frontier`
use only the corrected one. `Extract.AsWrittenAgrees` shows that the two
agree on every page where the code as written does not panic.
