# Image caching for the card browser, in Dafny

This project models the image-caching subsystem of a card-search desktop
application written in Rust (`src/cache/`). While the UI draws, it asks for
card images by URL. Three cooperating components serve those requests:

- **The download cache** (`UrlCacher`, module `UrlCache`). It records, per
  URL, whether the image file is `Present` on disk or `Downloading`. A path
  comes out only for a present URL. The first time a URL is seen it starts
  exactly one download, unless the file is already on disk. `url_to_file`
  names the file: the URL's serialisation with every non-alphanumeric
  character replaced by `_`, plus the URL path's extension.
- **The decoded-image cache** (`Cacher` / `InnerCache`, module
  `ImageCache`). It is a least-recently-used store from URL to
  `(access time, Loading | Present(handle))`. An ordered index maps each
  access time back to its URL. A clock hands out the times. `get` bumps a
  hit to the current time. On a miss whose file is ready, `get` stores a
  `Loading` entry and requests a load. `callback` fills in the decoded
  handle. `cache_replacement` pops the oldest index entries until at most
  `max_size` remain.
- **The admission limiter** (`ImgLimiter`, module `Limiter`). It lets at most
  `max_new` images that were not on screen in the previous render pass be
  shown in the current one. It always lets through those that were on
  screen. `view_finish` rotates the passes and asks for a redraw if an image
  was refused.

Each component is a class whose fields are the Rust struct's fields. Each
mutating method is proved against a pure function on a value of the state:
`Lookup`, `Fill` and `Evict` for the image cache, `Fetch` for the download
cache, and `Admit` and `Finish` for the limiter. The properties are proved
as lemmas about those functions. The invariants are object invariants
(`Valid()`) that every method keeps:

- the store and the index of the image cache are in bijection, and every
  time is below the clock;
- the download cache hands out at most one download per URL;
- the limiter's counter stays at most `max_new` and equals the number of
  admitted ids the previous pass did not show.

Messages sent on the application's channel are appended to a ghost log in
`Common.Channel`. Whether a file exists on disk is a parameter. Each
component holds its own channel reference, and the contracts also cover the
case where two components share one.

Files: `common.dfy` (shared types, channel), `url_cache.dfy`,
`image_cache.dfy`, `limiter.dfy`.

A failed download is never retried. The download command's completion
maps an error to `Message::None` and never resets the state
(`src/cache/url_cache.rs:62-68`). The URL therefore stays `Downloading`:
`get_path` never gives a path for it, and `fetch_if_needed` never
downloads it again (`UrlCache.Completion`, `UrlCache.Fetch`).

## Model

| member | source | states |
|---|---|---|
| `UrlCache.Sanitize` | src/cache/url_cache.rs:102-106 | the file stem has exactly as many characters as the URL's serialisation |
| `UrlCache.SanitizeAt` | src/cache/url_cache.rs:102-106 | position by position, alphanumeric characters are kept in place and every other character becomes `_`; the stem holds only alphanumerics and `_` |
| `UrlCache.SanitizeIdempotent` | src/cache/url_cache.rs:102-106 | sanitising an already sanitised stem changes nothing |
| `UrlCache.LastIndexOf` | src/cache/url_cache.rs:100-101 | the last occurrence of a character: absent iff the character does not occur; otherwise the character is at that index, not after it, and every occurrence is at or before it |
| `UrlCache.TrimTrailingSlashes` | src/cache/url_cache.rs:100 | the path without its trailing separators: a prefix of the path that does not end in `/`, and everything cut off is `/` |
| `UrlCache.LastSegmentOf` | src/cache/url_cache.rs:100 | the part after the last `/` (the whole path if there is none) has no `/`, ends the path, is empty only for the empty path, and is `..` exactly when the path ends in the segment `..` |
| `UrlCache.FileName` | src/cache/url_cache.rs:100-101 | the file name is the last segment of the path without its trailing `/`: non-empty, without `/` and not `..`; there is none exactly when that path is empty or ends in the segment `..` |
| `UrlCache.SplitExtension` | src/cache/url_cache.rs:101 | a file name has an extension exactly when it is not `..` and has a `.` other than a lone leading one; the extension is then the `.`-free tail after the last `.`, with something before that `.` |
| `UrlCache.Extension` | src/cache/url_cache.rs:100-101 | the URL path has an extension exactly when its last segment (after trimming trailing `/`) has one; the extension has no `.` and no `/`, and the last segment ends in `.` followed by it, with something before the `.` inside that segment |
| `UrlCache.ImagePathExtension` | src/cache/url_cache.rs:100-101 | the path `/a/x.jpg` has the extension `jpg` |
| `UrlCache.LeadingDotNoExtension` | src/cache/url_cache.rs:100-101 | the path `/.png` has no extension, since its file name's only `.` opens it |
| `UrlCache.FileStem` | src/cache/url_cache.rs:108-111 | a name without `.` is its own stem |
| `UrlCache.SetExtension` | src/cache/url_cache.rs:110 | an empty name or `..` is left alone; otherwise the result starts with the name's stem, is exactly one `.` and the extension longer than the stem for a non-empty extension (no longer for an empty one), and ends in `.` followed by the extension |
| `UrlCache.SetExtensionAppends` | src/cache/url_cache.rs:108-111 | on a non-empty name without `.`, `set_extension` only appends `.ext`, and appends nothing for an empty extension |
| `UrlCache.FileUnder` | src/cache/url_cache.rs:108-111 | the file for a stem and an optional extension lies under the cache directory |
| `UrlCache.Suffix` | src/cache/url_cache.rs:108-111 | what `set_extension` appends is empty exactly when there is no extension or it is empty, and is otherwise `.` followed by the extension |
| `UrlCache.FileUnderAppends` | src/cache/url_cache.rs:108-111 | on a non-empty dot-free stem, the file is the cache directory, the stem and the suffix |
| `UrlCache.UrlToFile` | src/cache/url_cache.rs:98-113 | every cache file lies under the cache directory; its full shape is stated by `UrlToFileShape` |
| `UrlCache.UrlToFileShape` | src/cache/url_cache.rs:98-113 | the cache file is the cache directory, then the sanitised serialisation (same length, alphanumerics in place, only alphanumerics and `_`), then `.` and the path's extension when it has a non-empty one |
| `UrlCache.NoExtensionNoSuffix` | src/cache/url_cache.rs:108-111 | a URL whose path has no extension gets a file name without one |
| `UrlCache.Completion` | src/cache/url_cache.rs:62-68 | a finished download reports `UrlCacheDownloadReady(url)` iff it succeeded, and `Message::None` otherwise |
| `UrlCache.PathIfPresent` | src/cache/url_cache.rs:35-47 | a path comes out iff the URL is `Present`, and it is the URL's cache file |
| `UrlCache.Fetch` | src/cache/url_cache.rs:51-74 | a known URL changes nothing and yields no command; an unknown URL becomes `Present` if its file exists, else `Downloading` with exactly one download command; other keys are untouched |
| `UrlCache.FetchTwice` | src/cache/url_cache.rs:52 | a second request for the same URL yields no command and leaves the map as the first left it |
| `UrlCache.FetchAll` | src/cache/url_cache.rs:51-74 | a run of `fetch_if_needed` calls gives at most one download per request and forgets no URL; the `FetchAll` lemmas below state the rest |
| `UrlCache.FetchAllKeepsKnown` | src/cache/url_cache.rs:51-74 | after any sequence of requests, the known URLs are the old ones plus those asked for, and old URLs keep their state |
| `UrlCache.FetchAllTargetsMissing` | src/cache/url_cache.rs:52-60 | every download started is for a URL asked for that was unknown and had no file on disk |
| `UrlCache.FetchAllDistinct` | src/cache/url_cache.rs:52 | no URL is downloaded twice, however often it is asked for |
| `UrlCache.FetchAllCoversMissing` | src/cache/url_cache.rs:57-60 | every unknown URL asked for whose file is missing gets a download |
| `UrlCache.FetchAllDownloadsOnce` | src/cache/url_cache.rs:51-74 | exactly one download per unknown URL with a missing file, none for any other URL |
| `UrlCache.UrlCacher.constructor` | src/cache/url_cache.rs:27-32 | the state map starts empty and no download has been handed out |
| `UrlCache.UrlCacher.GetPath` | src/cache/url_cache.rs:35-47 | returns the path iff the URL is `Present`; sends exactly one `UrlCacheDownload(url)` iff the URL is unknown; the state map is not modified |
| `UrlCache.UrlCacher.FetchIfNeeded` | src/cache/url_cache.rs:51-74 | the new map and the command are those of `Fetch`; a download is logged only when a command is returned; at most one download per URL is kept invariant |
| `UrlCache.UrlCacher.Callback` | src/cache/url_cache.rs:78-80 | the URL becomes `Present` whatever it was, and no other key changes |
| `ImageCache.IndexedSizes` | src/cache/image_cache.rs:42-47 | when the store and the index are in bijection, they hold the same number of entries |
| `ImageCache.Lookup` | src/cache/image_cache.rs:59-91 | a handle is returned iff the key is stored and `Present`; a load is requested iff the key is missing and its file is ready; a hit moves the entry to the current time with its state untouched; a miss with a file adds a `Loading` entry at the current time; the clock advances by one exactly when an entry is touched or added; other entries are untouched |
| `ImageCache.LookupConsistent` | src/cache/image_cache.rs:62-90 | `get` keeps the store and the index in bijection and every time below the clock |
| `ImageCache.LookupHitIndex` | src/cache/image_cache.rs:63-71 | on a hit the index entry moves from the key's old time to the current time |
| `ImageCache.LookupMakesNewest` | src/cache/image_cache.rs:63-86 | after `get`, the key asked for, if stored, has the latest time of all entries |
| `ImageCache.Fill` | src/cache/image_cache.rs:107-113 | a stored key gets `Present(handle)` at its old time, with the index untouched; an evicted key leaves the cache exactly as it was |
| `ImageCache.FillConsistent` | src/cache/image_cache.rs:107-113 | `callback` keeps the cache consistent |
| `ImageCache.MinTime` | src/cache/image_cache.rs:119 | the first key of the index is its smallest time |
| `ImageCache.PopOldest` | src/cache/image_cache.rs:119-122 | one eviction step removes exactly one index entry |
| `ImageCache.Evict` | src/cache/image_cache.rs:115-124 | afterwards the index holds `min(size, max_size)` entries; the clock is unchanged; surviving index and store entries are unchanged |
| `ImageCache.EvictOldestFirst` | src/cache/image_cache.rs:117-122 | every index entry removed is older than every entry kept |
| `ImageCache.EvictConsistent` | src/cache/image_cache.rs:115-124 | eviction keeps the cache consistent, and a key survives exactly when its time is still indexed |
| `ImageCache.EvictBounded` | src/cache/image_cache.rs:117 | afterwards at most `max_size` images are in the store and in the index |
| `ImageCache.RecentSurvivesEviction` | src/cache/image_cache.rs:59-124 | the image just asked for survives the eviction that follows whenever `max_size >= 1` |
| `ImageCache.LookupAll` | src/cache/image_cache.rs:59-91 | a render pass of `get`s requests at most one load per request, and the clock advances by at most one per request; the `LookupAll` lemmas below state the rest |
| `ImageCache.LookupAllLoadsMissing` | src/cache/image_cache.rs:77-88 | over a pass of `get`s, every load requested is for a key asked for that was not stored and whose file was ready; stored keys stay stored |
| `ImageCache.LookupAllLoadsOnce` | src/cache/image_cache.rs:72-88 | over a pass of `get`s, no key gets two load requests |
| `ImageCache.LookupAllConsistent` | src/cache/image_cache.rs:59-91 | a pass of `get`s keeps the cache consistent |
| `ImageCache.Cacher.constructor` | src/cache/image_cache.rs:51-57 | the cache starts empty, with the clock at 0 and room for 1000 images |
| `ImageCache.Cacher.Get` | src/cache/image_cache.rs:59-91 | the new state and the answer are those of `Lookup`, with the download cache's answer as `pathReady`; a `LoadImage(url)` is sent iff a load is requested; a `UrlCacheDownload(url)` is sent iff both caches miss the URL; the invariant is kept |
| `ImageCache.Cacher.Callback` | src/cache/image_cache.rs:107-113 | the new state is that of `Fill`, and the invariant is kept |
| `ImageCache.Cacher.CacheReplacement` | src/cache/image_cache.rs:115-124 | the new state is that of `Evict`; at most `max_size` entries remain in both maps; the invariant is kept |
| `Limiter.Admit` | src/cache/limiter.rs:38-55 | admitted iff the id was in the previous pass, is already admitted, or fewer than `max_new` new ids were admitted; an admitted id joins the current set; the counter grows only for an id new to both sets; a refusal sets `limited` and changes no set |
| `Limiter.AdmitBounded` | src/cache/limiter.rs:41-54 | `limit` keeps `new_count <= max_new` and `new_count == |current \ previous|` |
| `Limiter.AdmitIdempotent` | src/cache/limiter.rs:45-47 | asking again for an id admitted in this pass admits it and changes nothing |
| `Limiter.Finish` | src/cache/limiter.rs:56-66 | the previous set becomes the old current set, the current set is empty, the counter is 0, `limited` is false, and a redraw is requested iff `limited` was set |
| `Limiter.AdmitAll` | src/cache/limiter.rs:38-55 | a pass gives one answer per request |
| `Limiter.AdmitAllAnswers` | src/cache/limiter.rs:38-55 | over a pass, every id of the previous pass is admitted, every admitted id is in the current set, and any refusal leaves the pass limited |
| `Limiter.AdmitAllBounded` | src/cache/limiter.rs:41-54 | a pass keeps the counter bounded and exact |
| `Limiter.PassAdmitsAtMostMaxNew` | src/cache/limiter.rs:48-54 | a pass that starts after `view_finish` admits at most `max_new` ids the previous pass did not show |
| `Limiter.Scenario` | src/cache/limiter.rs:38-66 | with `max_new = 2` and ids 1, 2 shown in the previous pass, the requests 1 2 3 4 5 are answered yes yes yes yes no and a redraw is requested; in the next pass, with `max_new = 1`, 5 is admitted and 6 refused |
| `Limiter.ImgLimiter.constructor` | src/cache/limiter.rs:30-36 | both sets start empty, the counter at 0, not limited |
| `Limiter.ImgLimiter.Limit` | src/cache/limiter.rs:38-55 | the new state is that of `Admit`, the handle comes back iff admitted, and the invariant is kept |
| `Limiter.ImgLimiter.ViewFinish` | src/cache/limiter.rs:56-66 | the new state is that of `Finish`; exactly one `Message::None` is sent iff `limited` was set; the invariant is kept |

## Left out

- `Cacher::fetch`, `create_handle` (src/cache/image_cache.rs:94-103, 127-133) and `dowload_file` (src/cache/url_cache.rs:83-96) do asynchronous file and network I/O. They appear only as the messages and commands that start them (`LoadImage`, `UrlCache.Command`) and the message a download completes with (`UrlCache.Completion`).
- The lock around each component's state (`try_lock().unwrap()`) and the channel's receiving side are concurrency plumbing. The state is plain fields, and a send is an append to a ghost log. A send to a closed channel would panic, and that is not modelled.
- `Path::exists` is a file-system query. It is a parameter: `fileExists` for `FetchIfNeeded`, and a function from URL to existence for `FetchAll`.
- The platform cache directory comes from the operating system. `UrlCache.CacheDir` stands for `<cache dir>/img`.
- URL parsing belongs to the URL library. `Common.Url` carries the serialisation and the path as given. A parsed URL's serialisation is never empty, so `UrlCache.UrlToFileShape` requires a non-empty one. Its path has no `.` segments, and `UrlCache.FileName` does not model how `Path` skips them.
- `UrlCache.IsAlphanumeric`: Rust's `char::is_alphanumeric` also accepts non-ASCII letters and digits. A URL serialisation is ASCII, so only ASCII is modelled.
- `Handle` is a value with the id the UI toolkit stores in it. How the toolkit hashes image data into that id is not modelled.
- `ImageCache.Cacher.Get`: the access clock is a `nat`. The source's `u64` would overflow only after 2^64 accesses, and that is not modelled.
- The Scryfall search, the iced application and its views, and the unfinished generic cache in `src/cache.rs` are outside the caching core.
