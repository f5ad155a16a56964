/**
 * The persistent download cache: which URLs have a file on disk, which are
 * being downloaded, and the file each URL is stored under.
 */
module UrlCache {
  import opened Common

  // ---------------------------------------------------------------------
  // The file a URL is stored under
  // ---------------------------------------------------------------------

  /**
   * The image cache directory (`<platform cache dir>/img`). The platform
   * part comes from the operating system and is left out.
   */
  const CacheDir: string := "img"

  /** `char::is_alphanumeric` on the ASCII characters a URL serialisation is made of. */
  predicate IsAlphanumeric(c: char) {
    'a' <= c <= 'z' || 'A' <= c <= 'Z' || '0' <= c <= '9'
  }

  /** The stem of the cache file: every non-alphanumeric character becomes `_`. */
  function Sanitize(s: string): (r: string)
    ensures |r| == |s|
  {
    if s == [] then []
    else [if IsAlphanumeric(s[0]) then s[0] else '_'] + Sanitize(s[1..])
  }

  /**
   * Position by position, the stem keeps each alphanumeric character and
   * has `_` for every other one; so it holds nothing but alphanumerics and `_`.
   */
  lemma {:induction false} SanitizeAt(s: string)
    ensures forall i :: 0 <= i < |s| ==> Sanitize(s)[i] == if IsAlphanumeric(s[i]) then s[i] else '_'
    ensures forall c :: c in Sanitize(s) ==> IsAlphanumeric(c) || c == '_'
  {
    if s != [] {
      SanitizeAt(s[1..]);
      assert forall i :: 1 <= i < |s| ==> Sanitize(s)[i] == Sanitize(s[1..])[i - 1];
    }
  }

  /** Sanitising a stem a second time changes nothing. */
  lemma SanitizeIdempotent(s: string)
    ensures Sanitize(Sanitize(s)) == Sanitize(s)
  {
    var r := Sanitize(s);
    SanitizeAt(s);
    SanitizeAt(r);
    assert forall i :: 0 <= i < |r| ==> Sanitize(r)[i] == r[i];
  }

  /** The position of the last `c` in `s`. */
  function LastIndexOf(s: string, c: char): (r: Option<nat>)
    ensures r.None? <==> c !in s
    ensures r.Some? ==> r.value < |s| && s[r.value] == c && c !in s[r.value + 1..]
    ensures forall j :: 0 <= j < |s| && s[j] == c ==> r.Some? && j <= r.value
  {
    if s == [] then None
    else if s[|s| - 1] == c then Some(|s| - 1)
    else
      assert s == s[..|s| - 1] + [s[|s| - 1]];
      LastIndexOf(s[..|s| - 1], c)
  }

  /** `p` without the separators it ends with. */
  function TrimTrailingSlashes(p: string): (r: string)
    ensures |r| <= |p| && r == p[..|r|]
    ensures r == [] || r[|r| - 1] != '/'
    ensures forall i :: |r| <= i < |p| ==> p[i] == '/'
  {
    if p != [] && p[|p| - 1] == '/' then TrimTrailingSlashes(p[..|p| - 1]) else p
  }

  /** `seg` is the whole of `t` or follows its last separator. */
  predicate LastSegment(t: string, seg: string) {
    t == seg || (|seg| < |t| && t[|t| - |seg| - 1..] == "/" + seg)
  }

  /** The part of `t` after its last separator: the whole of `t` if it has none. */
  function LastSegmentOf(t: string): (seg: string)
    requires t == [] || t[|t| - 1] != '/'
    ensures '/' !in seg && LastSegment(t, seg)
    ensures seg == [] <==> t == []
    ensures seg == ".." <==> LastSegment(t, "..")
  {
    match LastIndexOf(t, '/')
    case None =>
      NoSeparatorSegment(t);
      t
    case Some(i) =>
      SegmentAfterSeparator(t, i);
      t[i + 1..]
  }

  /** A path without separators ends in the segment `..` only if it is `..`. */
  lemma NoSeparatorSegment(t: string)
    requires '/' !in t
    ensures LastSegment(t, "..") <==> t == ".."
  {
    if |t| >= 3 {
      assert t[|t| - 3..][0] == t[|t| - 3] && t[|t| - 3] in t;
    }
  }

  /** What follows the last separator is the last segment, and it is `..` exactly when the path ends in that segment. */
  lemma SegmentAfterSeparator(t: string, i: nat)
    requires i < |t| && t[i] == '/' && '/' !in t[i + 1..]
    ensures LastSegment(t, t[i + 1..])
    ensures t[i + 1..] == ".." <==> LastSegment(t, "..")
  {
    assert t[i..] == "/" + t[i + 1..];
    if i + 3 < |t| {
      assert t[i + 1..][|t| - 3 - (i + 1)] == t[|t| - 3] && t[|t| - 3..][0] == t[|t| - 3];
    }
  }

  /**
   * `Path::file_name` of a URL path: its last non-empty segment, none for
   * the root and for a path that ends in `..`.
   */
  function FileName(path: string): (r: Option<string>)
    ensures r.Some? ==> r.value != [] && '/' !in r.value && r.value != ".."
    ensures r.Some? ==> LastSegment(TrimTrailingSlashes(path), r.value)
    ensures r.None? <==> TrimTrailingSlashes(path) == [] || LastSegment(TrimTrailingSlashes(path), "..")
  {
    var segment := LastSegmentOf(TrimTrailingSlashes(path));
    if segment == [] || segment == ".." then None else Some(segment)
  }

  /**
   * `Path::extension` of a file name: what follows its last `.`, none when
   * the name has no `.`, when its only `.` opens it, or when it is `..`.
   */
  function SplitExtension(name: string): (r: Option<string>)
    ensures r.Some? <==> HasExtension(name)
    ensures r.Some? ==> '.' !in r.value && DotExtension(name, r.value)
  {
    if name == ".." then None
    else match LastIndexOf(name, '.')
      case None => None
      case Some(i) =>
        if i == 0 then None
        else
          assert name[1..][i - 1] == name[i];
          assert name[i..] == "." + name[i + 1..];
          Some(name[i + 1..])
  }

  /** A file name has an extension: it has a `.` that is not its only, leading one, and it is not `..`. */
  predicate HasExtension(name: string) {
    name != ".." && '.' in name && !(|name| > 0 && name[0] == '.' && '.' !in name[1..])
  }

  /** `name` ends in `.` followed by `ext`, with something before the `.`. */
  predicate DotExtension(name: string, ext: string) {
    |ext| + 2 <= |name| && name[|name| - |ext| - 1..] == "." + ext
  }

  /** The extension of the URL's path, as the cache file name keeps it. */
  function Extension(url: Url): (r: Option<string>)
    ensures r.Some? <==> HasExtension(LastSegmentOf(TrimTrailingSlashes(url.path)))
    ensures r.Some? ==> '.' !in r.value && '/' !in r.value
    ensures r.Some? ==> DotExtension(LastSegmentOf(TrimTrailingSlashes(url.path)), r.value)
    ensures r.Some? ==> EndsWithDot(TrimTrailingSlashes(url.path), r.value)
  {
    match FileName(url.path)
    case None => None
    case Some(name) =>
      var e := SplitExtension(name);
      if e.Some? then
        DotSuffixInPath(TrimTrailingSlashes(url.path), name, e.value);
        e
      else e
  }

  /** An ordinary image path has its extension. */
  lemma ImagePathExtension(text: string)
    ensures Extension(Url(text, "/a/x.jpg")) == Some("jpg")
  {
    LastSegmentIs("/a/x.jpg", 2);
    assert LastIndexOf("x.jpg", '.') == Some(1);
    assert SplitExtension("x.jpg") == Some("jpg");
  }

  /** A file name whose only `.` opens it has no extension. */
  lemma LeadingDotNoExtension(text: string)
    ensures Extension(Url(text, "/.png")) == None
  {
    LeadingDotSegment();
    LeadingDotName();
  }

  lemma LeadingDotName()
    ensures !HasExtension(".png")
  {
    assert ".png"[1..] == "png";
  }

  lemma LeadingDotSegment()
    ensures LastSegmentOf(TrimTrailingSlashes("/.png")) == ".png"
  {
    var t := "/.png";
    LastSegmentIs(t, 0);
    assert t[1..] == ".png";
  }

  /** A path that does not end in `/` and whose last separator is at `i` has the rest as its last segment. */
  lemma LastSegmentIs(t: string, i: nat)
    requires i < |t| && t[i] == '/' && '/' !in t[i + 1..] && t[|t| - 1] != '/'
    ensures TrimTrailingSlashes(t) == t && LastSegmentOf(t) == t[i + 1..]
  {
    assert t == t[..i + 1] + t[i + 1..];
    LastIndexOfAt(t, '/', i);
  }

  /** The last occurrence is found where the character occurs and not after it. */
  lemma LastIndexOfAt(s: string, c: char, i: nat)
    requires i < |s| && s[i] == c && c !in s[i + 1..]
    ensures LastIndexOf(s, c) == Some(i)
  {
    assert forall j :: i < j < |s| ==> s[i + 1..][j - i - 1] == s[j];
  }

  /** `p` ends in `.` followed by `ext`, with something before the `.`. */
  predicate EndsWithDot(p: string, ext: string) {
    |ext| + 1 < |p| && p[|p| - |ext| - 1..] == "." + ext
  }

  /** An extension at the end of the last segment is at the end of the path. */
  lemma DotSuffixInPath(t: string, name: string, ext: string)
    requires LastSegment(t, name)
    requires '/' !in name && DotExtension(name, ext)
    ensures '/' !in ext
    ensures EndsWithDot(t, ext)
  {
    assert t[|t| - |name|..] == name;
    assert ext == name[|name| - |ext| - 1..][1..];
    assert t[|t| - |ext| - 1..] == t[|t| - |name|..][|name| - |ext| - 1..];
  }

  /** `Path::file_stem` of a non-empty file name other than `..`. */
  function FileStem(name: string): (r: string)
    ensures '.' !in name ==> r == name
  {
    match LastIndexOf(name, '.')
    case None => name
    case Some(i) => if i == 0 then name else name[..i]
  }

  /**
   * `PathBuf::set_extension` applied to the last path component `name`:
   * cut the name back to its stem and append `.ext` unless `ext` is empty;
   * a name that is empty or `..` is left alone.
   */
  function SetExtension(name: string, ext: string): (r: string)
    ensures name == [] || name == ".." ==> r == name
    ensures name != [] && name != ".." ==> FileStem(name) <= r
    ensures name != [] && name != ".." ==> |r| == |FileStem(name)| + (if ext == [] then 0 else |ext| + 1)
    ensures name != [] && name != ".." && ext != [] ==> |ext| < |r| && r[|r| - |ext| - 1..] == "." + ext
  {
    if name == [] || name == ".." then name
    else FileStem(name) + (if ext == [] then [] else ['.'] + ext)
  }

  /** Since a sanitised stem holds no `.`, `set_extension` only appends to it. */
  lemma SetExtensionAppends(name: string, ext: string)
    requires name != [] && '.' !in name
    ensures SetExtension(name, ext) == name + (if ext == [] then [] else "." + ext)
  {
  }

  /** The file a URL is cached under: `url_to_file`. */
  function UrlToFile(url: Url): (r: string)
    ensures CacheDir + "/" <= r
  {
    FileUnder(Sanitize(url.text), Extension(url))
  }

  /** The file named `stem` in the cache directory, given the extension `ext`, if any. */
  function FileUnder(stem: string, ext: Option<string>): (r: string)
    ensures CacheDir + "/" <= r
  {
    CacheDir + "/" + match ext
      case None => stem
      case Some(e) => SetExtension(stem, e)
  }

  /** What `set_extension` appends to a dot-free stem for the extension `ext`, if any. */
  function Suffix(ext: Option<string>): (r: string)
    ensures r == [] <==> ext.None? || ext.value == []
    ensures r != [] ==> r[0] == '.' && r[1..] == ext.value
  {
    match ext
    case None => []
    case Some(e) => if e == [] then [] else "." + e
  }

  /** On a dot-free stem the cache file is the stem followed by the suffix. */
  lemma FileUnderAppends(stem: string, ext: Option<string>)
    requires stem != [] && '.' !in stem
    ensures FileUnder(stem, ext) == CacheDir + "/" + stem + Suffix(ext)
  {
    match ext
    case None =>
    case Some(e) => SetExtensionAppends(stem, e);
  }

  /**
   * The cache file is the cache directory, then the URL's serialisation
   * with every non-alphanumeric character replaced by `_` (same length,
   * alphanumerics kept in place), then the path's extension, if it has a
   * non-empty one, after a single `.`.
   */
  lemma {:induction false} UrlToFileShape(url: Url)
    requires url.text != []
    ensures var p := UrlToFile(url); var stem := Sanitize(url.text);
      && p == CacheDir + "/" + stem + Suffix(Extension(url))
      && |stem| == |url.text|
      && (forall c :: c in stem ==> IsAlphanumeric(c) || c == '_')
      && (forall i :: 0 <= i < |stem| && IsAlphanumeric(url.text[i]) ==> stem[i] == url.text[i])
  {
    var stem := Sanitize(url.text);
    SanitizeAt(url.text);
    assert '.' !in stem;
    FileUnderAppends(stem, Extension(url));
  }

  /** A URL whose path has no extension keeps no suffix. */
  lemma NoExtensionNoSuffix(url: Url)
    requires url.text != [] && Extension(url).None?
    ensures UrlToFile(url) == CacheDir + "/" + Sanitize(url.text)
  {
    UrlToFileShape(url);
  }

  // ---------------------------------------------------------------------
  // The download state
  // ---------------------------------------------------------------------

  datatype CacheState = Present | Downloading

  /** A command that downloads `url` and writes it to the URL's cache file. */
  datatype Command = Download(url: Url) {
    /** The file the download is written to. */
    function Target(): string {
      UrlToFile(url)
    }
  }

  /** The message the download command yields when it completes. */
  function Completion(cmd: Command, succeeded: bool): (m: Msg)
    ensures m.UrlCacheDownloadReady? <==> succeeded
    ensures m.UrlCacheDownloadReady? ==> m.url == cmd.url
    ensures !succeeded ==> m == NoneMsg
  {
    if succeeded then UrlCacheDownloadReady(cmd.url) else NoneMsg
  }

  /** `get_path` on the state map: a path only for a key that is present. */
  function PathIfPresent(data: map<Url, CacheState>, url: Url): (r: Option<string>)
    ensures r.Some? <==> url in data && data[url] == Present
    ensures r.Some? ==> r.value == UrlToFile(url)
  {
    if url in data && data[url] == Present then Some(UrlToFile(url)) else None
  }

  /** The state and the command after one `fetch_if_needed`. */
  datatype Fetched = Fetched(data: map<Url, CacheState>, command: Option<Command>)

  /** `fetch_if_needed` on the state map, with the file's existence given. */
  function Fetch(data: map<Url, CacheState>, url: Url, fileExists: bool): (r: Fetched)
    ensures r.data.Keys == data.Keys + {url}
    ensures forall k :: k in data ==> r.data[k] == data[k]
    ensures r.command.Some? <==> url !in data && !fileExists
    ensures r.command.Some? ==> r.command.value == Download(url)
    ensures url !in data ==> r.data[url] == if fileExists then Present else Downloading
  {
    if url !in data then
      if fileExists then Fetched(data[url := Present], None)
      else Fetched(data[url := Downloading], Some(Download(url)))
    else Fetched(data, None)
  }

  /** Asking twice in a row: the second call finds the key and does nothing. */
  lemma FetchTwice(data: map<Url, CacheState>, url: Url, first: bool, second: bool)
    ensures var r := Fetch(Fetch(data, url, first).data, url, second);
      r.command == None && r.data == Fetch(data, url, first).data
  {
  }

  /**
   * `fetch_if_needed` for each URL of `urls` in turn, where `fileExists(u)`
   * tells whether `UrlToFile(u)` is on disk; the commands in the order they
   * are returned.
   */
  function FetchAll(data: map<Url, CacheState>, urls: seq<Url>, fileExists: Url -> bool): (r: Fetches)
    ensures |r.commands| <= |urls|
    ensures data.Keys <= r.data.Keys
    decreases |urls|
  {
    if urls == [] then Fetches(data, [])
    else
      var first := Fetch(data, urls[0], fileExists(urls[0]));
      var rest := FetchAll(first.data, urls[1..], fileExists);
      Fetches(rest.data, (if first.command.Some? then [first.command.value] else []) + rest.commands)
  }

  datatype Fetches = Fetches(data: map<Url, CacheState>, commands: seq<Command>)

  /** The URLs of a list of download commands. */
  function CommandUrls(commands: seq<Command>): (r: set<Url>)
    ensures forall c :: c in commands ==> c.url in r
    ensures forall u :: u in r ==> exists c :: c in commands && c.url == u
  {
    set c | c in commands :: c.url
  }

  /** `FetchAll` only adds the URLs asked for and never changes a known URL's state. */
  lemma {:induction false} FetchAllKeepsKnown(data: map<Url, CacheState>, urls: seq<Url>, fileExists: Url -> bool)
    ensures var r := FetchAll(data, urls, fileExists);
      && r.data.Keys == data.Keys + (set u | u in urls)
      && (forall k :: k in data ==> r.data[k] == data[k])
    decreases |urls|
  {
    if urls != [] {
      var first := Fetch(data, urls[0], fileExists(urls[0]));
      FetchAllKeepsKnown(first.data, urls[1..], fileExists);
      assert (set u | u in urls) == {urls[0]} + (set u | u in urls[1..]) by {
        assert urls == [urls[0]] + urls[1..];
      }
    }
  }

  /** Every download `FetchAll` starts is for an unknown URL asked for whose file is missing. */
  lemma {:induction false} FetchAllTargetsMissing(data: map<Url, CacheState>, urls: seq<Url>, fileExists: Url -> bool)
    ensures forall c :: c in FetchAll(data, urls, fileExists).commands ==>
      c.url in urls && c.url !in data && !fileExists(c.url)
    decreases |urls|
  {
    if urls != [] {
      var first := Fetch(data, urls[0], fileExists(urls[0]));
      FetchAllTargetsMissing(first.data, urls[1..], fileExists);
    }
  }

  /** No two commands download the same URL. */
  ghost predicate DistinctUrls(commands: seq<Command>) {
    forall i, j :: 0 <= i < j < |commands| ==> commands[i].url != commands[j].url
  }

  /** `FetchAll` starts at most one download per URL. */
  lemma {:induction false} FetchAllDistinct(data: map<Url, CacheState>, urls: seq<Url>, fileExists: Url -> bool)
    ensures DistinctUrls(FetchAll(data, urls, fileExists).commands)
    decreases |urls|
  {
    if urls != [] {
      var first := Fetch(data, urls[0], fileExists(urls[0]));
      var rest := FetchAll(first.data, urls[1..], fileExists).commands;
      var cs := FetchAll(data, urls, fileExists).commands;
      FetchAllDistinct(first.data, urls[1..], fileExists);
      if first.command.Some? {
        FetchAllTargetsMissing(first.data, urls[1..], fileExists);
        assert cs == [first.command.value] + rest;
        forall i, j | 0 <= i < j < |cs| ensures cs[i].url != cs[j].url {
          assert cs[j] == rest[j - 1];
          if i == 0 {
            assert rest[j - 1] in rest;
          } else {
            assert cs[i] == rest[i - 1];
          }
        }
      } else {
        assert cs == rest;
      }
    }
  }

  /** `FetchAll` starts a download for every unknown URL asked for whose file is missing. */
  lemma {:induction false} FetchAllCoversMissing(data: map<Url, CacheState>, urls: seq<Url>, fileExists: Url -> bool)
    ensures forall u :: u in urls && u !in data && !fileExists(u) ==>
      u in CommandUrls(FetchAll(data, urls, fileExists).commands)
    decreases |urls|
  {
    if urls != [] {
      var first := Fetch(data, urls[0], fileExists(urls[0]));
      FetchAllCoversMissing(first.data, urls[1..], fileExists);
      var r := FetchAll(data, urls, fileExists);
      forall u | u in urls && u !in data && !fileExists(u)
        ensures u in CommandUrls(r.commands)
      {
        if u == urls[0] {
          assert r.commands[0].url == u;
        } else {
          assert u in urls[1..];
        }
      }
    }
  }

  /**
   * However often each URL is asked for, exactly one download is started
   * for each URL that was unknown and has no file on disk, and none for any
   * other URL.
   */
  lemma FetchAllDownloadsOnce(data: map<Url, CacheState>, urls: seq<Url>, fileExists: Url -> bool)
    ensures var r := FetchAll(data, urls, fileExists);
      && (forall i, j :: 0 <= i < j < |r.commands| ==> r.commands[i].url != r.commands[j].url)
      && CommandUrls(r.commands) == (set u | u in urls && u !in data && !fileExists(u))
  {
    FetchAllTargetsMissing(data, urls, fileExists);
    FetchAllDistinct(data, urls, fileExists);
    FetchAllCoversMissing(data, urls, fileExists);
  }

  /**
   * The download cache (`UrlCacher`): a state per URL and the channel its
   * download requests go to. The ghost `downloads` lists every URL a
   * download command was handed out for.
   */
  class UrlCacher {
    var data: map<Url, CacheState>
    const sender: Channel
    ghost var downloads: seq<Url>

    /** At most one download per URL, and only for URLs in the map. */
    ghost predicate Valid()
      reads this
    {
      && (forall i :: 0 <= i < |downloads| ==> downloads[i] in data)
      && (forall i, j :: 0 <= i < j < |downloads| ==> downloads[i] != downloads[j])
    }

    constructor (sender: Channel)
      ensures Valid()
      ensures data == map[] && downloads == [] && this.sender == sender
    {
      data := map[];
      this.sender := sender;
      downloads := [];
    }

    /**
     * `get_path`: the file for a present URL. An unknown URL is reported
     * on the channel with `UrlCacheDownload`; the map is left as it is.
     */
    method GetPath(url: Url) returns (path: Option<string>)
      modifies sender
      ensures path == PathIfPresent(data, url)
      ensures sender.sent == old(sender.sent) + if url in data then [] else [UrlCacheDownload(url)]
    {
      if url !in data {
        sender.Send(UrlCacheDownload(url));
        path := None;
      } else if data[url] == Downloading {
        path := None;
      } else {
        path := Some(UrlToFile(url));
      }
    }

    /**
     * `fetch_if_needed`, with `fileExists` the answer of the file system
     * for `UrlToFile(url)`.
     */
    method FetchIfNeeded(url: Url, fileExists: bool) returns (command: Option<Command>)
      requires Valid()
      modifies this
      ensures Valid()
      ensures Fetched(data, command) == Fetch(old(data), url, fileExists)
      ensures downloads == old(downloads) + if command.Some? then [url] else []
    {
      if url !in data {
        if fileExists {
          data := data[url := Present];
          command := None;
        } else {
          data := data[url := Downloading];
          command := Some(Download(url));
          downloads := downloads + [url];
        }
      } else {
        command := None;
      }
    }

    /** `callback` after a successful download: the URL is present, whatever it was. */
    method Callback(url: Url)
      requires Valid()
      modifies this
      ensures Valid()
      ensures data == old(data)[url := Present]
      ensures downloads == old(downloads)
    {
      data := data[url := Present];
    }
  }
}
