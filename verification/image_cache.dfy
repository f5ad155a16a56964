/**
 * The in-memory cache of decoded images: a least-recently-used store keyed
 * by URL, with an ordered index from access time back to the key.
 */
module ImageCache {
  import opened Common
  import UrlCache

  datatype CacheState = Present(handle: Handle) | Loading

  /** A stored image: when it was last asked for, and whether it is decoded yet. */
  datatype Entry = Entry(time: nat, state: CacheState)

  /** `InnerCache`: the store, the access-time index and the access clock. */
  datatype Inner = Inner(data: map<Url, Entry>, lastAccess: map<nat, Url>, time: nat)

  // ---------------------------------------------------------------------
  // The invariant
  // ---------------------------------------------------------------------

  /** The store and the index describe each other: `data[k].time == t` iff `lastAccess[t] == k`. */
  ghost predicate Indexed(data: map<Url, Entry>, lastAccess: map<nat, Url>) {
    && (forall k :: k in data ==> data[k].time in lastAccess && lastAccess[data[k].time] == k)
    && (forall t :: t in lastAccess ==> lastAccess[t] in data && data[lastAccess[t]].time == t)
  }

  /** The store and the index agree, and every stored time is earlier than the clock. */
  ghost predicate Consistent(c: Inner) {
    && Indexed(c.data, c.lastAccess)
    && (forall t :: t in c.lastAccess ==> t < c.time)
  }

  /** The store and the index always hold the same number of entries. */
  lemma {:induction false} IndexedSizes(data: map<Url, Entry>, lastAccess: map<nat, Url>)
    requires Indexed(data, lastAccess)
    ensures |data| == |lastAccess|
    decreases |data|
  {
    if data == map[] {
      assert lastAccess.Keys == {};
    } else {
      var k :| k in data;
      var t := data[k].time;
      var data', lastAccess' := data - {k}, lastAccess - {t};
      assert Indexed(data', lastAccess');
      IndexedSizes(data', lastAccess');
      assert data'.Keys == data.Keys - {k};
      assert lastAccess'.Keys == lastAccess.Keys - {t};
    }
  }

  // ---------------------------------------------------------------------
  // `get`
  // ---------------------------------------------------------------------

  /** What one `get` leaves behind: the new cache, the answer, and whether a load was requested. */
  datatype Access = Access(next: Inner, result: Option<Handle>, load: bool)

  /**
   * `get` on the cache value, where `pathReady` is whether the download
   * cache had the file. A hit moves the key to the current time in both the
   * store and the index; a miss with a file stores a `Loading` entry at the
   * current time and requests a load; a miss without one changes nothing.
   */
  function Lookup(c: Inner, url: Url, pathReady: bool): (a: Access)
    ensures a.result.Some? <==> url in c.data && c.data[url].state.Present?
    ensures a.result.Some? ==> a.result.value == c.data[url].state.handle
    ensures a.load <==> url !in c.data && pathReady
    ensures a.next.data.Keys == c.data.Keys + (if url in c.data || pathReady then {url} else {})
    ensures forall k :: k in c.data && k != url ==> a.next.data[k] == c.data[k]
    ensures url in c.data ==> a.next.data[url] == Entry(c.time, c.data[url].state)
    ensures url !in c.data && pathReady ==> a.next.data[url] == Entry(c.time, Loading)
    ensures a.next.time == if url in c.data || pathReady then c.time + 1 else c.time
  {
    if url in c.data then
      var e := c.data[url];
      var keyIn := if e.time in c.lastAccess then c.lastAccess[e.time] else url;
      var index := (c.lastAccess - {e.time})[c.time := keyIn];
      var result := match e.state
        case Present(h) => Some(h)
        case Loading => None;
      Access(Inner(c.data[url := Entry(c.time, e.state)], index, c.time + 1), result, false)
    else if pathReady then
      Access(Inner(c.data[url := Entry(c.time, Loading)], c.lastAccess[c.time := url], c.time + 1), None, true)
    else
      Access(c, None, false)
  }

  /** `get` keeps the store and the index in step and the clock ahead of every time. */
  lemma LookupConsistent(c: Inner, url: Url, pathReady: bool)
    requires Consistent(c)
    ensures Consistent(Lookup(c, url, pathReady).next)
  {
    var n := Lookup(c, url, pathReady).next;
    if url in c.data {
      var t := c.data[url].time;
      assert n.lastAccess == (c.lastAccess - {t})[c.time := url];
      forall k | k in n.data
        ensures n.data[k].time in n.lastAccess && n.lastAccess[n.data[k].time] == k
      {
        if k != url {
          assert c.data[k].time != t;
        }
      }
    }
  }

  /** On a hit, the key's index entry moves from its old time to the current one. */
  lemma LookupHitIndex(c: Inner, url: Url, pathReady: bool)
    requires Consistent(c) && url in c.data
    ensures Lookup(c, url, pathReady).next.lastAccess == (c.lastAccess - {c.data[url].time})[c.time := url]
  {
  }

  /**
   * The key just asked for is, if stored, the most recently used entry:
   * every other entry's time is earlier.
   */
  lemma LookupMakesNewest(c: Inner, url: Url, pathReady: bool)
    requires Consistent(c)
    ensures var n := Lookup(c, url, pathReady).next;
      url in n.data ==> forall t :: t in n.lastAccess && t != n.data[url].time ==> t < n.data[url].time
  {
    LookupConsistent(c, url, pathReady);
  }

  // ---------------------------------------------------------------------
  // `callback`
  // ---------------------------------------------------------------------

  /**
   * `callback` on the cache value: a key still stored gets its decoded
   * handle; a key evicted in the meantime leaves everything as it was.
   */
  function Fill(c: Inner, url: Url, handle: Handle): (r: Inner)
    ensures r.lastAccess == c.lastAccess && r.time == c.time && r.data.Keys == c.data.Keys
    ensures url in c.data ==> r.data[url] == Entry(c.data[url].time, Present(handle))
    ensures forall k :: k in c.data && k != url ==> r.data[k] == c.data[k]
    ensures url !in c.data ==> r == c
  {
    if url in c.data then
      Inner(c.data[url := Entry(c.data[url].time, Present(handle))], c.lastAccess, c.time)
    else c
  }

  lemma FillConsistent(c: Inner, url: Url, handle: Handle)
    requires Consistent(c)
    ensures Consistent(Fill(c, url, handle))
  {
  }

  // ---------------------------------------------------------------------
  // `cache_replacement`
  // ---------------------------------------------------------------------

  /** The smallest element of a non-empty set of times: the first key of the index. */
  ghost function MinTime(s: set<nat>): (m: nat)
    requires s != {}
    ensures m in s
    ensures forall y :: y in s ==> m <= y
  {
    var x :| x in s;
    var rest := s - {x};
    if rest == {} then
      assert s == {x};
      x
    else
      var r := MinTime(rest);
      assert forall y :: y in s ==> y == x || y in rest;
      if x < r then x else r
  }

  /** One step of `cache_replacement`: pop the oldest index entry and drop its key from the store. */
  ghost function PopOldest(c: Inner): (r: Inner)
    requires c.lastAccess != map[]
    ensures |r.lastAccess| == |c.lastAccess| - 1
  {
    var t := MinTime(c.lastAccess.Keys);
    assert (c.lastAccess - {t}).Keys == c.lastAccess.Keys - {t};
    Inner(c.data - {c.lastAccess[t]}, c.lastAccess - {t}, c.time)
  }

  /** `cache_replacement` on the cache value: pop oldest entries until at most `maxSize` are indexed. */
  ghost function Evict(c: Inner, maxSize: nat): (r: Inner)
    ensures |r.lastAccess| == if |c.lastAccess| <= maxSize then |c.lastAccess| else maxSize
    ensures r.time == c.time
    ensures forall t :: t in r.lastAccess ==> t in c.lastAccess && r.lastAccess[t] == c.lastAccess[t]
    ensures forall k :: k in r.data ==> k in c.data && r.data[k] == c.data[k]
    decreases |c.lastAccess|
  {
    if |c.lastAccess| <= maxSize then c else Evict(PopOldest(c), maxSize)
  }

  /** Eviction removes the oldest entries: every index entry removed is older than every one kept. */
  lemma {:induction false} EvictOldestFirst(c: Inner, maxSize: nat)
    ensures var r := Evict(c, maxSize);
      forall t, u :: t in c.lastAccess && t !in r.lastAccess && u in r.lastAccess ==> t < u
    decreases |c.lastAccess|
  {
    if |c.lastAccess| > maxSize {
      var p := PopOldest(c);
      var m := MinTime(c.lastAccess.Keys);
      EvictOldestFirst(p, maxSize);
      var r := Evict(c, maxSize);
      assert r == Evict(p, maxSize);
      forall t, u | t in c.lastAccess && t !in r.lastAccess && u in r.lastAccess
        ensures t < u
      {
        if t == m {
          assert u in p.lastAccess;
        } else {
          assert t in p.lastAccess;
        }
      }
    }
  }

  /**
   * Eviction keeps the store and the index in step, and a key survives
   * exactly when its time is still indexed.
   */
  lemma {:induction false} EvictConsistent(c: Inner, maxSize: nat)
    requires Consistent(c)
    ensures var r := Evict(c, maxSize);
      && Consistent(r)
      && (forall k :: k in c.data ==> (k in r.data <==> c.data[k].time in r.lastAccess))
    decreases |c.lastAccess|
  {
    if |c.lastAccess| > maxSize {
      var p := PopOldest(c);
      var t := MinTime(c.lastAccess.Keys);
      var key := c.lastAccess[t];
      assert p == Inner(c.data - {key}, c.lastAccess - {t}, c.time);
      assert Consistent(p) by {
        forall k | k in p.data
          ensures p.data[k].time in p.lastAccess && p.lastAccess[p.data[k].time] == k
        {
          assert c.data[k].time != t;
        }
      }
      EvictConsistent(p, maxSize);
    }
  }

  /** After eviction at most `maxSize` images are kept in memory. */
  lemma EvictBounded(c: Inner, maxSize: nat)
    requires Consistent(c)
    ensures |Evict(c, maxSize).data| <= maxSize && |Evict(c, maxSize).lastAccess| <= maxSize
  {
    EvictConsistent(c, maxSize);
    IndexedSizes(Evict(c, maxSize).data, Evict(c, maxSize).lastAccess);
  }

  /**
   * The image just asked for survives the eviction that follows, as long as
   * the cache may hold at least one image.
   */
  lemma RecentSurvivesEviction(c: Inner, url: Url, pathReady: bool, maxSize: nat)
    requires Consistent(c) && maxSize >= 1
    ensures var n := Lookup(c, url, pathReady).next;
      url in n.data ==> url in Evict(n, maxSize).data
  {
    var n := Lookup(c, url, pathReady).next;
    if url in n.data {
      LookupConsistent(c, url, pathReady);
      LookupMakesNewest(c, url, pathReady);
      EvictConsistent(n, maxSize);
      EvictOldestFirst(n, maxSize);
      var r := Evict(n, maxSize);
      assert |r.lastAccess| >= 1;
    }
  }

  // ---------------------------------------------------------------------
  // One render pass
  // ---------------------------------------------------------------------

  /** The cache after a pass of `get`s, and the keys whose load was requested, in order. */
  datatype Pass = Pass(cache: Inner, loads: seq<Url>)

  /**
   * `get` for each URL of `urls` in turn, where `ready` holds the URLs the
   * download cache has a file for (it does not change during a pass).
   */
  function LookupAll(c: Inner, urls: seq<Url>, ready: set<Url>): (r: Pass)
    ensures |r.loads| <= |urls|
    ensures c.time <= r.cache.time <= c.time + |urls|
    decreases |urls|
  {
    if urls == [] then Pass(c, [])
    else
      var a := Lookup(c, urls[0], urls[0] in ready);
      var rest := LookupAll(a.next, urls[1..], ready);
      Pass(rest.cache, (if a.load then [urls[0]] else []) + rest.loads)
  }

  /** No key appears twice among the requested loads. */
  ghost predicate NoRepeats(s: seq<Url>) {
    forall i, j :: 0 <= i < j < |s| ==> s[i] != s[j]
  }

  /** Every load is for a key asked for, not stored before the pass, whose file is ready; stored keys stay. */
  lemma {:induction false} LookupAllLoadsMissing(c: Inner, urls: seq<Url>, ready: set<Url>)
    ensures forall u :: u in LookupAll(c, urls, ready).loads ==> u in urls && u !in c.data && u in ready
    ensures c.data.Keys <= LookupAll(c, urls, ready).cache.data.Keys
    decreases |urls|
  {
    if urls != [] {
      var a := Lookup(c, urls[0], urls[0] in ready);
      LookupAllLoadsMissing(a.next, urls[1..], ready);
    }
  }

  /**
   * Within one pass, however often a key is asked for, at most one load is
   * requested for it, and none for a key already stored.
   */
  lemma {:induction false} LookupAllLoadsOnce(c: Inner, urls: seq<Url>, ready: set<Url>)
    ensures NoRepeats(LookupAll(c, urls, ready).loads)
    decreases |urls|
  {
    if urls != [] {
      var a := Lookup(c, urls[0], urls[0] in ready);
      LookupAllLoadsOnce(a.next, urls[1..], ready);
      LookupAllLoadsMissing(a.next, urls[1..], ready);
      var rest := LookupAll(a.next, urls[1..], ready).loads;
      var loads := LookupAll(c, urls, ready).loads;
      if a.load {
        assert loads == [urls[0]] + rest;
        forall i, j | 0 <= i < j < |loads| ensures loads[i] != loads[j] {
          assert loads[j] == rest[j - 1];
          if i == 0 {
            assert rest[j - 1] in rest;
          } else {
            assert loads[i] == rest[i - 1];
          }
        }
      } else {
        assert loads == rest;
      }
    }
  }

  /** A pass of `get`s keeps the cache consistent. */
  lemma {:induction false} LookupAllConsistent(c: Inner, urls: seq<Url>, ready: set<Url>)
    requires Consistent(c)
    ensures Consistent(LookupAll(c, urls, ready).cache)
    decreases |urls|
  {
    if urls != [] {
      LookupConsistent(c, urls[0], urls[0] in ready);
      LookupAllConsistent(Lookup(c, urls[0], urls[0] in ready).next, urls[1..], ready);
    }
  }

  // ---------------------------------------------------------------------
  // The cache object
  // ---------------------------------------------------------------------

  /** `Cacher`: the cache state behind its lock, its capacity and its channel. */
  class Cacher {
    var data: map<Url, Entry>
    var lastAccess: map<nat, Url>
    var time: nat
    const maxSize: nat
    const sender: Channel

    function Snapshot(): Inner
      reads this
    {
      Inner(data, lastAccess, time)
    }

    ghost predicate Valid()
      reads this
    {
      Consistent(Snapshot())
    }

    /** `Cacher::new`: empty, clock at zero, room for 1000 images. */
    constructor (sender: Channel)
      ensures Valid()
      ensures data == map[] && lastAccess == map[] && time == 0
      ensures maxSize == 1000 && this.sender == sender
    {
      data, lastAccess, time := map[], map[], 0;
      maxSize := 1000;
      this.sender := sender;
    }

    /**
     * `get`: the decoded image, if it is stored and loaded. A miss asks the
     * download cache for the file, which may report the URL on its own
     * channel; if the file is there, a `LoadImage` request is sent.
     */
    method Get(url: Url, urlCache: UrlCache.UrlCacher) returns (r: Option<Handle>)
      requires Valid()
      modifies this, sender, urlCache.sender
      ensures Valid()
      ensures var a := Lookup(old(Snapshot()), url, UrlCache.PathIfPresent(urlCache.data, url).Some?);
        Snapshot() == a.next && r == a.result
      ensures var a := Lookup(old(Snapshot()), url, UrlCache.PathIfPresent(urlCache.data, url).Some?);
        var requested := if url !in old(data) && url !in urlCache.data then [UrlCacheDownload(url)] else [];
        var loaded := if a.load then [LoadImage(url)] else [];
        if sender == urlCache.sender then sender.sent == old(sender.sent) + requested + loaded
        else sender.sent == old(sender.sent) + loaded && urlCache.sender.sent == old(urlCache.sender.sent) + requested
    {
      LookupConsistent(Snapshot(), url, UrlCache.PathIfPresent(urlCache.data, url).Some?);
      if url in data {
        var entry := data[url];
        var keyIn := if entry.time in lastAccess then lastAccess[entry.time] else url;
        lastAccess := (lastAccess - {entry.time})[time := keyIn];
        data := data[url := Entry(time, entry.state)];
        time := time + 1;
        r := match entry.state
          case Present(h) => Some(h)
          case Loading => None;
      } else {
        var path := urlCache.GetPath(url);
        if path.Some? {
          lastAccess := lastAccess[time := url];
          data := data[url := Entry(time, Loading)];
          sender.Send(LoadImage(url));
          time := time + 1;
        }
        r := None;
      }
    }

    /** `callback`: store the decoded image if its key is still cached. */
    method Callback(url: Url, handle: Handle)
      requires Valid()
      modifies this
      ensures Valid()
      ensures Snapshot() == Fill(old(Snapshot()), url, handle)
    {
      if url in data {
        data := data[url := Entry(data[url].time, Present(handle))];
      }
    }

    /** `cache_replacement`: drop the least recently used images until at most `maxSize` remain. */
    method CacheReplacement()
      requires Valid()
      modifies this
      ensures Valid()
      ensures Snapshot() == Evict(old(Snapshot()), maxSize)
      ensures |data| <= maxSize && |lastAccess| <= maxSize
    {
      while |lastAccess| > maxSize
        invariant Evict(Snapshot(), maxSize) == Evict(old(Snapshot()), maxSize)
        decreases |lastAccess|
      {
        ghost var oldest := MinTime(lastAccess.Keys);
        var t :| t in lastAccess && forall u :: u in lastAccess ==> t <= u;
        assert t == oldest;
        var key := lastAccess[t];
        lastAccess := lastAccess - {t};
        data := data - {key};
      }
      EvictConsistent(old(Snapshot()), maxSize);
      EvictBounded(old(Snapshot()), maxSize);
    }
  }
}
