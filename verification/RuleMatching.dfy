/** When an allowlist rule explains a request: the string matching of the checker. */
module RuleMatching {
  import opened Basics
  import opened Text

  // ---------- hosts ----------

  function StripDots(s: string): string {
    if s != "" && s[|s| - 1] == '.' then StripDots(s[..|s| - 1]) else s
  }

  /** The index after the last ':'; 0 if there is none. */
  function AfterLastColon(s: string): (n: nat)
    ensures n <= |s|
    ensures n > 0 ==> s[n - 1] == ':'
  {
    if s == "" then 0 else if s[|s| - 1] == ':' then |s| else AfterLastColon(s[..|s| - 1])
  }

  function NormalizeHost(u: Unicode, host: string): string {
    var h := StripDots(u.lower(Strip(u, host)));
    var n := AfterLastColon(h);
    if n > 0 && n < |h| && (forall c | c in h[n..] :: u.isDigit(c)) then h[..n - 1] else h
  }

  /** No white space or dot at the ends, lower case, no colon. */
  predicate IsBareHost(u: Unicode, h: string) {
    IsPlain(u, h) && h[|h| - 1] != '.' && ':' !in h && u.lower(h) == h
  }

  lemma NormalizeBare(u: Unicode, h: string)
    requires IsBareHost(u, h)
    ensures NormalizeHost(u, h) == h
  {
  }

  lemma {:induction false} LastColonBefore(h: string, port: string)
    requires ':' !in port
    ensures AfterLastColon(h + ":" + port) == |h| + 1
    decreases port
  {
    var s := h + ":" + port;
    if port == "" {
      assert s[|s| - 1] == ':';
    } else {
      assert port[|port| - 1] in port && s[|s| - 1] == port[|port| - 1];
      assert s[..|s| - 1] == h + ":" + port[..|port| - 1];
      LastColonBefore(h, port[..|port| - 1]);
    }
  }

  /** A numeric port is dropped, so it has no influence on matching. */
  lemma PortIsIgnored(u: Unicode, h: string, port: string)
    requires IsBareHost(u, h) && port != "" && (forall c | c in port :: u.isDigit(c) && !u.isSpace(c) && c != ':' && c != '.')
    requires u.lower(h + ":" + port) == h + ":" + port
    ensures NormalizeHost(u, h + ":" + port) == NormalizeHost(u, h)
  {
    var s := h + ":" + port;
    assert port[|port| - 1] in port && s[|s| - 1] == port[|port| - 1] && s[0] == h[0];
    assert Strip(u, s) == s && StripDots(s) == s;
    LastColonBefore(h, port);
    assert s[|h| + 1..] == port && s[..|h|] == h;
    NormalizeBare(u, h);
  }

  /** So are dots at the end. */
  lemma FinalDotIsIgnored(u: Unicode, h: string)
    requires IsBareHost(u, h) && !u.isSpace('.') && u.lower(h + ".") == h + "."
    ensures NormalizeHost(u, h + ".") == NormalizeHost(u, h)
  {
  }

  predicate AllDots(s: string) {
    forall c | c in s :: c == '.'
  }

  lemma {:induction false} DotsStripped(s: string, dots: string)
    requires AllDots(dots) && (s == "" || s[|s| - 1] != '.')
    ensures StripDots(s + dots) == s
    decreases dots
  {
    if dots == "" {
      assert s + dots == s;
    } else {
      var last := |dots| - 1;
      assert dots[last] in dots && (s + dots)[..|s| + last] == s + dots[..last];
      assert forall c | c in dots[..last] :: c in dots;
      DotsStripped(s, dots[..last]);
    }
  }

  lemma {:induction false} NoColon(s: string)
    requires ':' !in s
    ensures AfterLastColon(s) == 0
    decreases s
  {
    if s != "" {
      assert s[|s| - 1] in s;
      assert forall c | c in s[..|s| - 1] :: c in s;
      NoColon(s[..|s| - 1]);
    }
  }

  /** What is left of a host without a port: white space around it goes, then letters become
      lower case, then the dots at its end go. */
  lemma NormalForm(u: Unicode, left: string, x: string, right: string, low: string, dots: string)
    requires AllSpace(u, left) && AllSpace(u, right) && IsPlain(u, x) && AllDots(dots)
    requires u.lower(x) == low + dots && ':' !in low && (low == "" || low[|low| - 1] != '.')
    ensures NormalizeHost(u, left + x + right) == low
  {
    StripSpaceAround(u, left, x, right);
    DotsStripped(low, dots);
    NoColon(low);
  }

  /** And with a colon in it: what follows the last one goes too, with the colon, if it is
      made of digits, at least one; otherwise all of it stays. */
  lemma NormalFormWithPort(u: Unicode, left: string, x: string, right: string, low: string, port: string, dots: string)
    requires AllSpace(u, left) && AllSpace(u, right) && IsPlain(u, x) && AllDots(dots)
    requires u.lower(x) == low + ":" + port + dots && ':' !in port && (port == "" || port[|port| - 1] != '.')
    ensures NormalizeHost(u, left + x + right) ==
            if port != "" && forall c | c in port :: u.isDigit(c) then low else low + ":" + port
  {
    var h := low + ":" + port;
    StripSpaceAround(u, left, x, right);
    DotsStripped(h, dots);
    LastColonBefore(low, port);
    assert h[|low| + 1..] == port && h[..|low|] == low;
  }

  predicate IsWildcard(pattern: string) {
    StartsWith(pattern, "*.")
  }

  /** host_matches after normalisation; None where it raises AllowlistError. */
  function NormalHostMatches(pattern: string, host: string): Option<bool> {
    if IsWildcard(pattern) then
      var base := pattern[2..];
      if base == "" || '*' in base then None else Some(EndsWith(host, "." + base))
    else if '*' in pattern then
      None
    else
      Some(host == pattern)
  }

  function HostMatches(u: Unicode, pattern: string, host: string): Option<bool> {
    if pattern == "" then None else NormalHostMatches(NormalizeHost(u, pattern), NormalizeHost(u, host))
  }

  /** The dot-separated labels of a host. */
  function Labels(host: string): seq<string> {
    Split(host, '.')
  }

  /** A wildcard accepts exactly the hosts with strictly more labels that end with the
      labels of its base; any other pattern accepts the host with exactly its labels. */
  lemma HostMatchesLabels(pattern: string, host: string)
    requires NormalHostMatches(pattern, host).Some?
    ensures NormalHostMatches(pattern, host).value <==>
            if IsWildcard(pattern) then
              var base, labels := Labels(pattern[2..]), Labels(host);
              |base| < |labels| && labels[|labels| - |base|..] == base
            else
              Labels(host) == Labels(pattern)
  {
    if IsWildcard(pattern) {
      EndsWithIsParts(host, '.', pattern[2..]);
    } else if Labels(host) == Labels(pattern) {
      SplitInjective(host, pattern, '.');
    }
  }

  /** A star is allowed only as the whole first label, with a base behind it. */
  predicate StarsInPlace(pattern: string) {
    var labels := Split(pattern, '.');
    || (forall l | l in labels :: '*' !in l)
    || (labels[0] == "*" && |labels| >= 2 && pattern != "*." && forall j | 1 <= j < |labels| :: '*' !in labels[j])
  }

  lemma WildcardStars(base: string)
    ensures StarsInPlace("*." + base) <==> base != "" && '*' !in base
  {
    var n, parts := "*." + base, Split(base, '.');
    assert n == "*" + ['.'] + base;
    SplitAt("*", '.', base);
    assert "*"[1..] == "" && ['*'] + "" == "*";
    assert Split(n, '.') == ["*"] + parts;
    CharInParts(base, '.', '*');
    assert forall j | 1 <= j < |parts| + 1 :: Split(n, '.')[j] == parts[j - 1];
    if part :| part in parts && '*' in part {
      var k :| 0 <= k < |parts| && parts[k] == part;
      assert Split(n, '.')[k + 1] == part;
    }
    assert "*" in Split(n, '.') && '*' in "*";
    assert base == "" <==> n == "*.";
  }

  lemma OtherStars(n: string)
    requires !IsWildcard(n)
    ensures StarsInPlace(n) <==> '*' !in n
  {
    CharInParts(n, '.', '*');
    if Split(n, '.')[0] == "*" && |Split(n, '.')| >= 2 {
      FirstLabelStar(n);
    }
  }

  /** Matching raises exactly for an empty pattern and for one with a star elsewhere. */
  lemma RaisesIff(u: Unicode, pattern: string, host: string)
    ensures HostMatches(u, pattern, host).None? <==> pattern == "" || !StarsInPlace(NormalizeHost(u, pattern))
  {
    var n := NormalizeHost(u, pattern);
    if IsWildcard(n) {
      assert n == "*." + n[2..];
      WildcardStars(n[2..]);
    } else {
      OtherStars(n);
    }
  }

  lemma FirstLabelStar(n: string)
    requires Split(n, '.')[0] == "*" && |Split(n, '.')| >= 2
    ensures IsWildcard(n)
  {
    var labels := Split(n, '.');
    JoinSplit(n, '.');
    assert n == "*" + ['.'] + Join(labels[1..], '.');
  }

  /** Never the apex, and never a name that merely ends in the same letters. */
  lemma NeitherApexNorLookalike(base: string, x: string)
    requires base != "" && '*' !in base
    requires x == "" || x[|x| - 1] != '.'
    ensures NormalHostMatches("*." + base, x + base) == Some(false)
  {
    var host, dotted := x + base, "." + base;
    assert ("*." + base)[2..] == base && ("*." + base)[..2] == "*.";
    if x != "" {
      assert host[|host| - |dotted|..][0] == x[|x| - 1] != dotted[0];
    }
  }

  // ---------- paths ----------

  function PathMatches(prefix: string, path: string): bool {
    if !StartsWith(path, prefix) then false
    else if |path| == |prefix| || EndsWith(prefix, "/") then true
    else path[|prefix|] == '/'
  }

  function Segments(path: string): seq<string> {
    Split(path, '/')
  }

  /** Segment by segment: without a final slash the prefix's segments come first in the
      path's; with one, the segments before it do, and more must follow. */
  lemma PathMatchesSegments(prefix: string, path: string)
    ensures PathMatches(prefix, path) <==>
            if EndsWith(prefix, "/") then Segments(prefix[..|prefix| - 1]) < Segments(path)
            else Segments(prefix) <= Segments(path)
  {
    if EndsWith(prefix, "/") {
      var q := prefix[..|prefix| - 1];
      assert prefix == q + ['/'];
      StartsWithIsParts(path, '/', q);
    } else {
      StartsWithIsParts(path, '/', prefix);
      if Segments(prefix) == Segments(path) {
        SplitInjective(prefix, path, '/');
      }
      if PathMatches(prefix, path) && path != prefix {
        assert path[..|prefix| + 1] == prefix + ['/'];
      }
      if StartsWith(path, prefix + ['/']) {
        assert path[..|prefix|] == (prefix + ['/'])[..|prefix|] == prefix;
        assert path[|prefix|] == (prefix + ['/'])[|prefix|];
      }
    }
  }
}
