/** Which DEPS-managed sub-repository a path belongs to. */
module DepsResolver {
  import opened Basics
  import opened Text

  datatype Pin = Pin(repo: string, commit: string)

  type DepMap = map<string, Pin>

  datatype Resolved = Resolved(pin: Pin, subpath: string)

  // ---------- load_dep_map ----------

  /** The index of the last '@', or None. */
  function LastAt(s: string): (r: Option<nat>)
    ensures r.Some? ==> r.value < |s| && s[r.value] == '@'
  {
    if s == "" then None
    else if s[|s| - 1] == '@' then Some(|s| - 1)
    else LastAt(s[..|s| - 1])
  }

  function StripSlashesRight(s: string): string {
    if s != "" && s[|s| - 1] == '/' then StripSlashesRight(s[..|s| - 1]) else s
  }

  function KeyOf(localPath: string): string {
    StripSlashesRight(if StartsWith(localPath, "src/") then localPath[4..] else localPath)
  }

  /** The key is the local path without "src/" in front and without slashes at the end. */
  lemma KeyReassembles(localPath: string) returns (n: nat)
    ensures localPath == (if StartsWith(localPath, "src/") then "src/" else "") + KeyOf(localPath) + Slashes(n)
    ensures KeyOf(localPath) == "" || KeyOf(localPath)[|KeyOf(localPath)| - 1] != '/'
  {
    var inner := if StartsWith(localPath, "src/") then localPath[4..] else localPath;
    n := StripRightRestores(inner);
    var front := if StartsWith(localPath, "src/") then "src/" else "";
    assert localPath == front + inner;
    Regroup(front, KeyOf(localPath), Slashes(n));
  }

  lemma Regroup(a: string, b: string, c: string)
    ensures a + (b + c) == a + b + c
  {
  }

  lemma {:induction false} StripRightRestores(s: string) returns (n: nat)
    ensures s == StripSlashesRight(s) + Slashes(n)
    ensures StripSlashesRight(s) == "" || StripSlashesRight(s)[|StripSlashesRight(s)| - 1] != '/'
    decreases s
  {
    if s != "" && s[|s| - 1] == '/' {
      var k := StripRightRestores(s[..|s| - 1]);
      n := k + 1;
      SlashesTurn(k);
      assert s == s[..|s| - 1] + "/";
    } else {
      n := 0;
    }
  }

  lemma {:induction false} SlashesTurn(n: nat)
    ensures Slashes(n) + "/" == Slashes(n + 1)
    decreases n
  {
    if n > 0 {
      SlashesTurn(n - 1);
    }
  }

  function Slashes(n: nat): string {
    if n == 0 then "" else "/" + Slashes(n - 1)
  }

  /** An entry of DEPS; its url is None if it is not text. */
  datatype Dep = Dep(localPath: string, url: Option<string>)

  predicate IsGit(d: Dep) {
    d.url.Some? && LastAt(d.url.value).Some?
  }

  function PinOf(d: Dep): Pin
    requires IsGit(d)
  {
    var at := LastAt(d.url.value).value;
    Pin(d.url.value[..at], d.url.value[at + 1..])
  }

  /** The commit is what follows the last '@' of the url. */
  lemma {:induction false} NoAtAfterLast(s: string)
    ensures LastAt(s).Some? ==> '@' !in s[LastAt(s).value + 1..]
    ensures LastAt(s).None? ==> '@' !in s
    decreases s
  {
    if s != "" && s[|s| - 1] != '@' {
      var front := s[..|s| - 1];
      NoAtAfterLast(front);
      assert s == front + [s[|s| - 1]];
      if LastAt(s).Some? {
        var at := LastAt(s).value;
        assert s[at + 1..] == front[at + 1..] + [s[|s| - 1]];
      }
    }
  }

  /** An entry counts iff its url is text with an '@'; repository and commit are what stands
      before and after the last one. */
  lemma PinReassembles(d: Dep)
    ensures IsGit(d) <==> d.url.Some? && '@' in d.url.value
    ensures IsGit(d) ==>
              d.url.value == PinOf(d).repo + "@" + PinOf(d).commit && '@' !in PinOf(d).commit
  {
    if d.url.Some? {
      NoAtAfterLast(d.url.value);
    }
  }

  function DepMapOf(deps: seq<Dep>): DepMap
    decreases deps
  {
    if deps == [] then map[]
    else
      var m, d := DepMapOf(deps[..|deps| - 1]), deps[|deps| - 1];
      if IsGit(d) then m[KeyOf(d.localPath) := PinOf(d)] else m
  }

  method LoadDepMap(deps: seq<Dep>) returns (m: DepMap)
    ensures m == DepMapOf(deps)
  {
    m := map[];
    for n := 0 to |deps|
      invariant m == DepMapOf(deps[..n])
    {
      assert deps[..n + 1][..n] == deps[..n];
      if IsGit(deps[n]) {
        m := m[KeyOf(deps[n].localPath) := PinOf(deps[n])];
      }
    }
    assert deps[..|deps|] == deps;
  }

  /** Entry i is the last git entry with the key. */
  ghost predicate LastWith(deps: seq<Dep>, key: string, i: int) {
    && 0 <= i < |deps| && IsGit(deps[i]) && KeyOf(deps[i].localPath) == key
    && forall j | i < j < |deps| && IsGit(deps[j]) :: KeyOf(deps[j].localPath) != key
  }

  /** The map has the keys of the git entries, each with the pin of its last entry. */
  lemma {:induction false} LastEntryWins(deps: seq<Dep>, key: string) returns (i: int)
    ensures key in DepMapOf(deps) <==> exists j :: 0 <= j < |deps| && IsGit(deps[j]) && KeyOf(deps[j].localPath) == key
    ensures key in DepMapOf(deps) ==> LastWith(deps, key, i) && DepMapOf(deps)[key] == PinOf(deps[i])
    decreases deps
  {
    if deps == [] {
      i := 0;
    } else {
      var front, last := deps[..|deps| - 1], |deps| - 1;
      i := LastEntryWins(front, key);
      if key in DepMapOf(front) {
        assert deps[i] == front[i];
      }
      assert forall j | 0 <= j < last :: deps[j] == front[j];
      if IsGit(deps[last]) && KeyOf(deps[last].localPath) == key {
        i := last;
      }
    }
  }

  lemma {:induction false} StrippedHasNoSlash(s: string)
    ensures !EndsWith(StripSlashesRight(s), "/")
    decreases s
  {
    if s != "" && s[|s| - 1] == '/' {
      StrippedHasNoSlash(s[..|s| - 1]);
    }
  }

  /** No key ends in a slash. */
  lemma KeysHaveNoFinalSlash(deps: seq<Dep>, key: string)
    requires key in DepMapOf(deps)
    ensures !EndsWith(key, "/")
  {
    var i := LastEntryWins(deps, key);
    var path := deps[i].localPath;
    StrippedHasNoSlash(if StartsWith(path, "src/") then path[4..] else path);
  }

  // ---------- resolve ----------

  predicate Covers(prefix: string, path: string) {
    path == prefix || StartsWith(path, prefix + "/")
  }

  ghost predicate IsLongest(prefix: string, path: string, m: DepMap) {
    && prefix in m && Covers(prefix, path)
    && forall q | q in m && Covers(q, path) :: |q| <= |prefix|
  }

  function StripSlashesLeft(s: string): string {
    if s != "" && s[0] == '/' then StripSlashesLeft(s[1..]) else s
  }

  function Inside(path: string, prefix: string, m: DepMap): Resolved
    requires prefix in m && |prefix| <= |path|
  {
    Resolved(m[prefix], StripSlashesLeft(path[|prefix|..]))
  }

  /** Two covering prefixes of one length are equal, so the longest is unique. */
  lemma LongestUnique(p: string, q: string, path: string, m: DepMap)
    requires IsLongest(p, path, m) && IsLongest(q, path, m)
    ensures p == q
  {
    CoveringIsPrefix(p, path);
    CoveringIsPrefix(q, path);
  }

  lemma CoveringIsPrefix(p: string, path: string)
    requires Covers(p, path)
    ensures |p| <= |path| && p == path[..|p|]
  {
  }

  /** What resolve must return: the pin of the longest key that is the path or a directory
      above it. */
  ghost function Resolution(path: string, m: DepMap): Option<Resolved> {
    if p :| IsLongest(p, path, m) then
      CoveringIsPrefix(p, path);
      Some(Inside(path, p, m))
    else
      None
  }

  /** Segment by segment the key is the path or leads to it. */
  predicate LeadsTo(key: string, path: string) {
    Split(key, '/') <= Split(path, '/')
  }

  lemma CoversInSegments(key: string, path: string)
    ensures Covers(key, path) <==> LeadsTo(key, path)
  {
    assert key + "/" == key + ['/'];
    StartsWithIsParts(path, '/', key);
    if Split(key, '/') == Split(path, '/') {
      SplitInjective(key, path, '/');
    }
  }

  /** Of two keys that lead to a path, the longer has more segments. */
  lemma MoreSegmentsLonger(p: string, q: string, path: string)
    requires LeadsTo(p, path) && LeadsTo(q, path) && |p| <= |q|
    ensures |Split(p, '/')| <= |Split(q, '/')| && (|Split(p, '/')| == |Split(q, '/')| ==> p == q)
  {
    var ps, qs := Split(p, '/'), Split(q, '/');
    if |qs| < |ps| {
      PrefixesNest(qs, ps, Split(path, '/'));
      StartsWithIsParts(p, '/', q);
    }
    if |qs| == |ps| {
      PrefixesNest(qs, ps, Split(path, '/'));
      SplitInjective(p, q, '/');
    }
  }

  lemma PrefixesNest(a: seq<string>, b: seq<string>, c: seq<string>)
    requires a <= c && b <= c && |a| <= |b|
    ensures a <= b && (|a| == |b| ==> a == b)
  {
    assert a == c[..|a|] && b == c[..|b|];
  }

  /** The key has the most segments of those that lead to the path. */
  ghost predicate IsDeepest(key: string, path: string, m: DepMap) {
    && key in m && Split(key, '/') <= Split(path, '/')
    && forall q | q in m && q != key && Split(q, '/') <= Split(path, '/') :: |Split(q, '/')| < |Split(key, '/')|
  }

  lemma LongestIsDeepest(key: string, path: string, m: DepMap)
    requires IsLongest(key, path, m)
    ensures IsDeepest(key, path, m)
  {
    CoversInSegments(key, path);
    forall q | q in m && q != key && Split(q, '/') <= Split(path, '/')
      ensures |Split(q, '/')| < |Split(key, '/')|
    {
      CoversInSegments(q, path);
      MoreSegmentsLonger(q, key, path);
    }
  }

  lemma {:induction false} LongestExists(path: string, keys: set<string>) returns (p: string)
    requires exists q :: q in keys && Covers(q, path)
    ensures p in keys && Covers(p, path) && forall q | q in keys && Covers(q, path) :: |q| <= |p|
    decreases keys
  {
    var k :| k in keys;
    var rest := keys - {k};
    if exists q :: q in rest && Covers(q, path) {
      p := LongestExists(path, rest);
      if Covers(k, path) && |k| > |p| {
        p := k;
      }
    } else {
      p := k;
    }
  }

  /** Complete and exact, segment by segment: there is an answer iff some key leads to the
      path, and it is the pin of the key with the most segments among those and what is left
      of the path without the slashes in front. */
  lemma ResolutionInSegments(path: string, m: DepMap) returns (key: string, n: nat)
    ensures Resolution(path, m).Some? <==> exists q :: q in m && Split(q, '/') <= Split(path, '/')
    ensures Resolution(path, m).Some? ==>
              && IsDeepest(key, path, m)
              && Resolution(path, m).value.pin == m[key]
              && path == key + Slashes(n) + Resolution(path, m).value.subpath
              && !StartsWith(Resolution(path, m).value.subpath, "/")
  {
    if Resolution(path, m).Some? {
      key, n := ResolutionReassembles(path, m);
      LongestIsDeepest(key, path, m);
    } else {
      key, n := "", 0;
      if q :| q in m && Split(q, '/') <= Split(path, '/') {
        CoversInSegments(q, path);
        var p := LongestExists(path, m.Keys);
        assert IsLongest(p, path, m);
        assert false;
      }
    }
  }

  /** Whatever order the map is visited in, the loop returns the resolution. */
  method Resolve(path: string, m: DepMap) returns (r: Option<Resolved>)
    ensures r == Resolution(path, m)
    ensures r.Some? <==> exists q :: q in m && Split(q, '/') <= Split(path, '/')
  {
    ghost var _, _ := ResolutionInSegments(path, m);
    var best: Option<string> := None;
    var todo := m.Keys;
    while todo != {}
      invariant todo <= m.Keys
      invariant best.Some? ==> best.value in m && Covers(best.value, path)
      invariant forall q | q in m && q !in todo && Covers(q, path) :: best.Some? && |q| <= |best.value|
      decreases todo
    {
      var prefix :| prefix in todo;
      if Covers(prefix, path) {
        if best.None? || |prefix| > |best.value| {
          best := Some(prefix);
        }
      }
      todo := todo - {prefix};
    }
    if best.None? {
      assert forall p :: !IsLongest(p, path, m);
      return None;
    }
    assert IsLongest(best.value, path, m);
    forall p | IsLongest(p, path, m)
      ensures p == best.value
    {
      LongestUnique(p, best.value, path, m);
    }
    CoveringIsPrefix(best.value, path);
    r := Some(Inside(path, best.value, m));
  }

  lemma {:induction false} StripLeftRestores(s: string) returns (n: nat)
    ensures s == Slashes(n) + StripSlashesLeft(s) && !StartsWith(StripSlashesLeft(s), "/")
    ensures s != "" && s[0] == '/' ==> n > 0
    decreases s
  {
    if s != "" && s[0] == '/' {
      var k := StripLeftRestores(s[1..]);
      n := k + 1;
      assert s == "/" + s[1..];
    } else {
      n := 0;
    }
  }

  /** Key, slashes and subpath make up the path again; at least one slash unless the path
      is the key. */
  lemma ResolutionReassembles(path: string, m: DepMap) returns (prefix: string, n: nat)
    requires Resolution(path, m).Some?
    ensures var r := Resolution(path, m).value;
            && IsLongest(prefix, path, m) && r.pin == m[prefix]
            && path == prefix + Slashes(n) + r.subpath && !StartsWith(r.subpath, "/")
            && (path != prefix ==> n > 0)
  {
    prefix :| IsLongest(prefix, path, m);
    forall p | IsLongest(p, path, m)
      ensures p == prefix
    {
      LongestUnique(p, prefix, path, m);
    }
    CoveringIsPrefix(prefix, path);
    n := StripLeftRestores(path[|prefix|..]);
    assert path == prefix + path[|prefix|..];
    if path != prefix {
      assert path[..|prefix| + 1][|prefix|] == (prefix + "/")[|prefix|];
    }
  }
}
