/**
 The fetcher of files at the pinned Chromium version: a cache directory with content
 and absence markers in front of the main repository and the DEPS sub-repositories.
 */
module PinnedSources {
  import opened Basics
  import opened Text
  import opened DepsResolver

  /** What the servers hold at the pin. DEPS is a file of the main repository. */
  datatype World = World(src: map<string, Bytes>, parseDeps: Bytes -> DepMap, repos: map<Resolved, Bytes>)

  const DEPS := "DEPS"
  const ABSENT := ".ABSENT"

  /** The file at the pin: from the main repository, else from a sub-repository. */
  ghost function Lookup(w: World, path: string): Option<Bytes>
    requires DEPS in w.src
  {
    if path in w.src then Some(w.src[path]) else FromRepos(w.repos, w.parseDeps(w.src[DEPS]), path)
  }

  ghost function FromRepos(repos: map<Resolved, Bytes>, deps: DepMap, path: string): Option<Bytes> {
    match Resolution(path, deps)
    case None => None
    case Some(r) => if r in repos then Some(repos[r]) else None
  }

  /** Where a file is found: in the main repository; else in the sub-repository of the key of
      DEPS with the most segments that leads to it, at that key's pin and under the rest
      of the path; and nowhere else. */
  lemma FoundWhere(w: World, path: string) returns (key: string, n: nat, rest: string)
    requires DEPS in w.src
    ensures path in w.src ==> Lookup(w, path) == Some(w.src[path])
    ensures var m := w.parseDeps(w.src["DEPS"]);
            path !in w.src ==>
              if exists q :: q in m && Split(q, '/') <= Split(path, '/') then
                && IsDeepest(key, path, m) && path == key + Slashes(n) + rest && !StartsWith(rest, "/")
                && (Resolved(m[key], rest) in w.repos ==> Lookup(w, path) == Some(w.repos[Resolved(m[key], rest)]))
                && (Resolved(m[key], rest) !in w.repos ==> Lookup(w, path) == None)
              else
                Lookup(w, path) == None
  {
    var m := w.parseDeps(w.src[DEPS]);
    key, n := ResolutionInSegments(path, m);
    rest := if Resolution(path, m).Some? then Resolution(path, m).value.subpath else "";
  }

  // ---------- one call ----------

  /** Files below the cache root, and the dep map once it is loaded. */
  datatype Cache = Cache(files: map<string, Bytes>, deps: Option<DepMap>)

  datatype Source = Hit | Fetched | Marked

  datatype Got = Got(cache: Cache, content: Option<Bytes>, source: Source)

  function LoadDeps(w: World, c: Cache): Cache
    requires DEPS in w.src
    ensures LoadDeps(w, c).deps.Some?
  {
    if c.deps.Some? then c
    else
      var text := if DEPS in c.files then c.files[DEPS] else w.src[DEPS];
      Cache(c.files[DEPS := text], Some(w.parseDeps(text)))
  }

  ghost function Get(w: World, c: Cache, path: string): Got
    requires DEPS in w.src
  {
    if path in c.files then Got(c, Some(c.files[path]), Hit)
    else if path + ABSENT in c.files then Got(c, None, Hit)
    else if path in w.src then Got(c.(files := c.files[path := w.src[path]]), Some(w.src[path]), Fetched)
    else
      var c1 := LoadDeps(w, c);
      match FromRepos(w.repos, c1.deps.value, path)
      case Some(b) => Got(c1.(files := c1.files[path := b]), Some(b), Fetched)
      case None => Got(c1.(files := c1.files[path + ABSENT := []]), None, Marked)
  }

  function Markers(c: Cache): set<string> {
    set f | f in c.files && EndsWith(f, ABSENT)
  }

  lemma MarkersOfUpdate(c: Cache, c': Cache, f: string, b: Bytes)
    requires c'.files == c.files[f := b]
    ensures Markers(c') == if EndsWith(f, ABSENT) then Markers(c) + {f} else Markers(c)
  {
  }

  /** A call adds one marker if it answers with a new marker, and none otherwise. */
  lemma MarkersGrow(w: World, c: Cache, path: string)
    requires DEPS in w.src && !EndsWith(path, ABSENT)
    ensures var got := Get(w, c, path);
            |Markers(got.cache)| == |Markers(c)| + (if got.source.Marked? then 1 else 0)
  {
    var got := Get(w, c, path);
    if !got.source.Hit? {
      var c1 := if path in w.src then c else LoadDeps(w, c);
      if c1 != c {
        MarkersOfUpdate(c, c1, DEPS, c1.files[DEPS]);
      }
      assert Markers(c1) == Markers(c);
      var f := if got.source.Marked? then path + ABSENT else path;
      MarkerName(path);
      MarkersOfUpdate(c1, got.cache, f, got.cache.files[f]);
    }
  }

  datatype Reply = Content(bytes: Bytes) | NotThere | Died

  class PinnedSourceFetcher {
    const offline: bool
    var files: map<string, Bytes>
    var deps: Option<DepMap>
    var fetched: nat
    var cacheHits: nat

    constructor (offline: bool, files: map<string, Bytes>)
      ensures this.offline == offline && Contents() == Cache(files, None)
      ensures fetched == 0 && cacheHits == 0
    {
      this.offline, this.files, deps := offline, files, None;
      fetched, cacheHits := 0, 0;
    }

    ghost function Contents(): Cache
      reads this
    {
      Cache(files, deps)
    }

    /** The calls the counters and the markers below the cache root stand for. */
    ghost function Accounted(): nat
      reads this
    {
      fetched + cacheHits + |Markers(Contents())|
    }

    method LoadDepMap(w: World)
      requires DEPS in w.src && !offline
      modifies this`files, this`deps
      ensures Contents() == LoadDeps(w, old(Contents()))
    {
      if deps.None? {
        var text := if DEPS in files then files[DEPS] else w.src[DEPS];
        files := files[DEPS := text];
        deps := Some(w.parseDeps(text));
      }
    }

    method GetFile(w: World, path: string) returns (r: Reply)
      requires DEPS in w.src
      modifies this
      ensures r.Died? <==> offline && path !in old(files) && path + ABSENT !in old(files)
      ensures r.Died? ==> Contents() == old(Contents()) && fetched == old(fetched) && cacheHits == old(cacheHits)
      ensures !r.Died? ==>
                var got := Get(w, old(Contents()), path);
                && Contents() == got.cache
                && r == (if got.content.Some? then Content(got.content.value) else NotThere)
                && fetched == old(fetched) + (if got.source.Fetched? then 1 else 0)
                && cacheHits == old(cacheHits) + (if got.source.Hit? then 1 else 0)
      ensures !r.Died? && !EndsWith(path, ABSENT) ==> Accounted() == old(Accounted()) + 1
    {
      if !EndsWith(path, ABSENT) {
        MarkersGrow(w, Contents(), path);
      }
      if path in files {
        cacheHits := cacheHits + 1;
        return Content(files[path]);
      }
      if path + ABSENT in files {
        cacheHits := cacheHits + 1;
        return NotThere;
      }
      if offline {
        return Died;
      }
      var content: Option<Bytes> := None;
      if path in w.src {
        content := Some(w.src[path]);
      } else {
        LoadDepMap(w);
        var where := Resolve(path, deps.value);
        if where.Some? && where.value in w.repos {
          content := Some(w.repos[where.value]);
        }
        if content.None? {
          files := files[path + ABSENT := []];
          return NotThere;
        }
      }
      files := files[path := content.value];
      fetched := fetched + 1;
      return Content(content.value);
    }
  }

  // ---------- cached agrees with uncached ----------

  /** Every content file and every marker tells the truth about the pin. */
  ghost predicate Coherent(w: World, c: Cache)
    requires DEPS in w.src
  {
    && (forall f | f in c.files :: Truthful(w, f, c.files[f]))
    && (c.deps.Some? ==> c.deps.value == w.parseDeps(w.src[DEPS]))
  }

  ghost predicate Truthful(w: World, f: string, b: Bytes)
    requires DEPS in w.src
  {
    if EndsWith(f, ABSENT) then Lookup(w, f[..|f| - |ABSENT|]) == None else Lookup(w, f) == Some(b)
  }

  lemma MarkerName(path: string)
    ensures EndsWith(path + ABSENT, ABSENT) && (path + ABSENT)[..|path|] == path
  {
  }

  /** A call answers what the uncached look-up answers, and keeps the cache truthful. */
  lemma GetAgrees(w: World, c: Cache, path: string)
    requires DEPS in w.src && Coherent(w, c) && !EndsWith(path, ABSENT)
    ensures Get(w, c, path).content == Lookup(w, path)
    ensures Coherent(w, Get(w, c, path).cache)
  {
  }

  /** Content and absence marker of one path never coexist. */
  lemma NeverBoth(w: World, c: Cache, path: string)
    requires DEPS in w.src && Coherent(w, c) && !EndsWith(path, ABSENT)
    ensures !(path in c.files && path + ABSENT in c.files)
  {
  }

  // ---------- sequences of calls ----------

  ghost function CacheAfter(w: World, c: Cache, paths: seq<string>): Cache
    requires DEPS in w.src
    decreases paths
  {
    if paths == [] then c else CacheAfter(w, Get(w, c, paths[0]).cache, paths[1..])
  }

  /** The i-th of a sequence of calls. */
  ghost function Call(w: World, c: Cache, paths: seq<string>, i: nat): Got
    requires DEPS in w.src && i < |paths|
  {
    Get(w, CacheAfter(w, c, paths[..i]), paths[i])
  }

  lemma {:induction false} CacheAfterCoherent(w: World, c: Cache, paths: seq<string>)
    requires DEPS in w.src && Coherent(w, c) && forall p | p in paths :: !EndsWith(p, ABSENT)
    ensures Coherent(w, CacheAfter(w, c, paths))
    decreases paths
  {
    if paths == [] {
    } else {
      assert paths[0] in paths;
      GetAgrees(w, c, paths[0]);
      CacheAfterCoherent(w, Get(w, c, paths[0]).cache, paths[1..]);
    }
  }

  /** Every call of every sequence agrees with the uncached look-up. */
  lemma EveryCallAgrees(w: World, c: Cache, paths: seq<string>, i: nat)
    requires DEPS in w.src && Coherent(w, c) && forall p | p in paths :: !EndsWith(p, ABSENT)
    requires i < |paths|
    ensures Call(w, c, paths, i).content == Lookup(w, paths[i])
  {
    assert forall p | p in paths[..i] :: p in paths;
    CacheAfterCoherent(w, c, paths[..i]);
    GetAgrees(w, CacheAfter(w, c, paths[..i]), paths[i]);
  }

  lemma {:induction false} FilesStay(w: World, c: Cache, paths: seq<string>, f: string)
    requires DEPS in w.src && f in c.files
    ensures f in CacheAfter(w, c, paths).files
    decreases paths
  {
    if paths == [] {
    } else {
      FilesStay(w, Get(w, c, paths[0]).cache, paths[1..], f);
    }
  }

  lemma {:induction false} CacheAfterSplits(w: World, c: Cache, a: seq<string>, b: seq<string>)
    requires DEPS in w.src
    ensures CacheAfter(w, c, a + b) == CacheAfter(w, CacheAfter(w, c, a), b)
    decreases a
  {
    if a == [] {
      assert a + b == b;
    } else {
      assert (a + b)[1..] == a[1..] + b;
      CacheAfterSplits(w, Get(w, c, a[0]).cache, a[1..], b);
    }
  }

  /** A path is asked of the servers at most once: if two calls name one path, the later
      one is answered from the cache. */
  lemma FetchedOnce(w: World, c: Cache, paths: seq<string>, i: nat, j: nat)
    requires DEPS in w.src && i < j < |paths| && paths[i] == paths[j]
    ensures Call(w, c, paths, j).source == Hit
  {
    var path := paths[i];
    var after := Call(w, c, paths, i).cache;
    assert path in after.files || path + ABSENT in after.files;
    assert paths[..j] == paths[..i] + ([path] + paths[i + 1..j]);
    CacheAfterSplits(w, c, paths[..i], [path] + paths[i + 1..j]);
    assert ([path] + paths[i + 1..j])[1..] == paths[i + 1..j];
    if path in after.files {
      FilesStay(w, after, paths[i + 1..j], path);
    } else {
      FilesStay(w, after, paths[i + 1..j], path + ABSENT);
    }
  }

  ghost function Count(w: World, c: Cache, paths: seq<string>, s: Source): nat
    requires DEPS in w.src
    decreases paths
  {
    if paths == [] then 0
    else (if Get(w, c, paths[0]).source == s then 1 else 0) + Count(w, Get(w, c, paths[0]).cache, paths[1..], s)
  }

  /** Downloads, cache hits and new absence markers add up to the calls. */
  lemma {:induction false} CallsAccounted(w: World, c: Cache, paths: seq<string>)
    requires DEPS in w.src && forall p | p in paths :: !EndsWith(p, ABSENT)
    ensures Count(w, c, paths, Fetched) + Count(w, c, paths, Hit) + |Markers(CacheAfter(w, c, paths))| - |Markers(c)| == |paths|
    decreases paths
  {
    if paths == [] {
    } else {
      assert paths[0] in paths;
      MarkersGrow(w, c, paths[0]);
      CallsAccounted(w, Get(w, c, paths[0]).cache, paths[1..]);
    }
  }

  // ---------- names that end like a marker ----------

  /** Which names may be asked for together with the names of their markers: the file
      exists and a file with the marker's name does not, or the file is absent and the one
      with the marker's name is empty. DEPS is an exception: a sub-repository is not looked
      into before DEPS itself is cached. */
  ghost predicate Clear(w: World, q: string)
    requires DEPS in w.src
  {
    match Lookup(w, q)
    case Some(_) => if q == DEPS then q + ABSENT !in w.src else Lookup(w, q + ABSENT) == None
    case None => Lookup(w, q + ABSENT) == Some([])
  }

  ghost predicate NamesClear(w: World, names: iset<string>)
    requires DEPS in w.src
  {
    forall q | q in names && q + ABSENT in names :: Clear(w, q)
  }

  const EmptyCache := Cache(map[], None)

  /** From an empty cache, every call of every sequence over the names is answered as the
      uncached look-up answers it. */
  ghost predicate AlwaysAgrees(w: World, names: iset<string>)
    requires DEPS in w.src
  {
    forall paths: seq<string>, i: nat | i < |paths| && Over(paths, names) ::
      Call(w, EmptyCache, paths, i).content == Lookup(w, paths[i])
  }

  ghost predicate Over(paths: seq<string>, names: iset<string>) {
    forall p | p in paths :: p in names
  }

  ghost predicate IsContent(w: World, names: iset<string>, f: string, b: Bytes)
    requires DEPS in w.src
  {
    (f in names || f == DEPS) && Lookup(w, f) == Some(b)
  }

  ghost predicate IsMarker(w: World, names: iset<string>, f: string, b: Bytes)
    requires DEPS in w.src
  {
    EndsWith(f, ABSENT) && b == [] && f[..|f| - |ABSENT|] in names && Lookup(w, f[..|f| - |ABSENT|]) == None
  }

  ghost predicate CoherentOver(w: World, names: iset<string>, c: Cache)
    requires DEPS in w.src
  {
    && (forall f | f in c.files :: IsContent(w, names, f, c.files[f]) || IsMarker(w, names, f, c.files[f]))
    && (c.deps.Some? ==> DEPS in c.files && c.deps.value == w.parseDeps(w.src[DEPS]))
    && (DEPS + ABSENT in c.files && DEPS + ABSENT !in w.src ==> DEPS in c.files)
  }

  lemma MarkerNamesDiffer(a: string, b: string)
    requires a + ABSENT == b + ABSENT
    ensures a == b
  {
    MarkerName(a);
    MarkerName(b);
  }

  lemma ClearAnswer(w: World, names: iset<string>, c: Cache, path: string)
    requires DEPS in w.src && NamesClear(w, names) && CoherentOver(w, names, c) && path in names
    ensures Get(w, c, path).content == Lookup(w, path)
  {
    MarkerName(path);
    if path in c.files && IsMarker(w, names, path, c.files[path]) {
      var q := path[..|path| - |ABSENT|];
      assert path == q + ABSENT;
      assert Clear(w, q);
    } else if path !in c.files && path + ABSENT in c.files && IsContent(w, names, path + ABSENT, c.files[path + ABSENT]) {
      assert path + ABSENT in names;
      assert Clear(w, path);
    }
  }

  lemma ClearStep(w: World, names: iset<string>, c: Cache, path: string)
    requires DEPS in w.src && NamesClear(w, names) && CoherentOver(w, names, c) && path in names
    ensures CoherentOver(w, names, Get(w, c, path).cache)
  {
    MarkerName(path);
    ClearAnswer(w, names, c, path);
    if path + ABSENT == DEPS + ABSENT {
      MarkerNamesDiffer(path, DEPS);
    }
  }

  lemma {:induction false} CacheAfterCoherentOver(w: World, names: iset<string>, c: Cache, paths: seq<string>)
    requires DEPS in w.src && NamesClear(w, names) && CoherentOver(w, names, c) && Over(paths, names)
    ensures CoherentOver(w, names, CacheAfter(w, c, paths))
    decreases paths
  {
    if paths == [] {
    } else {
      assert paths[0] in paths;
      ClearStep(w, names, c, paths[0]);
      CacheAfterCoherentOver(w, names, Get(w, c, paths[0]).cache, paths[1..]);
    }
  }

  /** A name that is not clear: one order of asking for it and its marker's name gives a
      wrong second answer. */
  lemma UnclearPair(w: World, q: string) returns (paths: seq<string>)
    requires DEPS in w.src && !Clear(w, q)
    ensures paths == [q, q + ABSENT] || paths == [q + ABSENT, q]
    ensures Call(w, EmptyCache, paths, 1).content != Lookup(w, paths[1])
  {
    paths := if Lookup(w, q) == None then [q, q + ABSENT] else [q + ABSENT, q];
    assert paths[..1] == [paths[0]] && [paths[0]][1..] == [];
    assert CacheAfter(w, EmptyCache, paths[..1]) == Get(w, EmptyCache, paths[0]).cache;
    MarkerName(q);
    assert q != q + ABSENT && q != q + ABSENT + ABSENT;
  }

  /** The cache is transparent for a set of names exactly if every name is clear whose
      marker's name is among them too. */
  lemma TransparentIff(w: World, names: iset<string>)
    requires DEPS in w.src
    ensures AlwaysAgrees(w, names) <==> NamesClear(w, names)
  {
    if NamesClear(w, names) {
      forall paths: seq<string>, i: nat | i < |paths| && Over(paths, names)
        ensures Call(w, EmptyCache, paths, i).content == Lookup(w, paths[i])
      {
        assert Over(paths[..i], names);
        CacheAfterCoherentOver(w, names, EmptyCache, paths[..i]);
        ClearAnswer(w, names, CacheAfter(w, EmptyCache, paths[..i]), paths[i]);
      }
    } else {
      var q :| q in names && q + ABSENT in names && !Clear(w, q);
      var paths := UnclearPair(w, q);
      assert Over(paths, names) && 1 < |paths|;
    }
  }

  /** The restriction on names is needed: after a file was found absent, asking for the name
      of its marker returns the marker, though no such file exists at the pin. */
  lemma MarkerMistakenForFile(w: World, path: string)
    requires DEPS in w.src && path != DEPS
    requires Lookup(w, path) == None && Lookup(w, path + ".ABSENT") == None
    ensures var c := CacheAfter(w, EmptyCache, [path]);
            Get(w, c, path + ".ABSENT").content == Some([])
  {
  }

  /** And a file that has a marker's name hides another: once it is fetched, the file whose
      marker it seems to be is answered absent. */
  lemma FileMistakenForMarker(w: World, path: string)
    requires DEPS in w.src && path in w.src && path != DEPS && path + ".ABSENT" in w.src
    ensures var c := CacheAfter(w, EmptyCache, [path + ".ABSENT"]);
            Get(w, c, path).content == None
  {
  }
}
