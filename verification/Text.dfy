/** String operations of Python that the audit uses, and the laws of split and join. */
module Text {
  /** What Python takes from the Unicode tables. */
  datatype Unicode = Unicode(lower: string -> string, isSpace: char -> bool, isDigit: char -> bool)

  // ---------- strip ----------

  function StripLeft(u: Unicode, s: string): string {
    if s != "" && u.isSpace(s[0]) then StripLeft(u, s[1..]) else s
  }

  function StripRight(u: Unicode, s: string): string {
    if s != "" && u.isSpace(s[|s| - 1]) then StripRight(u, s[..|s| - 1]) else s
  }

  function Strip(u: Unicode, s: string): string {
    StripRight(u, StripLeft(u, s))
  }

  /** Nonempty, no white space at either end. */
  predicate IsPlain(u: Unicode, s: string) {
    s != "" && !u.isSpace(s[0]) && !u.isSpace(s[|s| - 1])
  }

  lemma StripLine(u: Unicode, s: string)
    requires IsPlain(u, s) && u.isSpace('\n')
    ensures Strip(u, s + "\n") == s
  {
    var line := s + "\n";
    assert line[0] == s[0] && line[|line| - 1] == '\n' && line[..|line| - 1] == s;
    assert StripLeft(u, line) == line;
    assert StripRight(u, line) == StripRight(u, s) == s;
  }

  predicate AllSpace(u: Unicode, s: string) {
    forall c | c in s :: u.isSpace(c)
  }

  lemma {:induction false} AllSpaceIsBlank(u: Unicode, s: string)
    requires AllSpace(u, s)
    ensures Strip(u, s) == ""
    decreases s
  {
    if s != "" {
      assert s[0] in s;
      assert forall c | c in s[1..] :: c in s;
      AllSpaceIsBlank(u, s[1..]);
    }
  }

  lemma {:induction false} StripLeftKeeps(u: Unicode, s: string)
    requires !AllSpace(u, s)
    ensures StripLeft(u, s) != "" && !u.isSpace(StripLeft(u, s)[0])
    decreases s
  {
    if u.isSpace(s[0]) {
      assert s == [s[0]] + s[1..];
      StripLeftKeeps(u, s[1..]);
    }
  }

  lemma {:induction false} StripRightKeepsFront(u: Unicode, s: string)
    requires s != "" && !u.isSpace(s[0])
    ensures StripRight(u, s) != ""
    decreases s
  {
    if u.isSpace(s[|s| - 1]) {
      StripRightKeepsFront(u, s[..|s| - 1]);
    }
  }

  /** strip() leaves nothing iff there is only white space. */
  lemma BlankIff(u: Unicode, s: string)
    ensures Strip(u, s) == "" <==> forall c | c in s :: u.isSpace(c)
  {
    if AllSpace(u, s) {
      AllSpaceIsBlank(u, s);
    } else {
      StripLeftKeeps(u, s);
      StripRightKeepsFront(u, StripLeft(u, s));
    }
  }

  lemma {:induction false} StripLeftSpace(u: Unicode, left: string, s: string)
    requires AllSpace(u, left) && s != "" && !u.isSpace(s[0])
    ensures StripLeft(u, left + s) == s
    decreases left
  {
    if left == "" {
      assert left + s == s;
    } else {
      assert left[0] in left && (left + s)[1..] == left[1..] + s;
      StripLeftSpace(u, left[1..], s);
    }
  }

  lemma {:induction false} StripRightSpace(u: Unicode, s: string, right: string)
    requires AllSpace(u, right) && s != "" && !u.isSpace(s[|s| - 1])
    ensures StripRight(u, s + right) == s
    decreases right
  {
    if right == "" {
      assert s + right == s;
    } else {
      var last := |right| - 1;
      assert right[last] in right && (s + right)[..|s| + last] == s + right[..last];
      StripRightSpace(u, s, right[..last]);
    }
  }

  /** strip() takes away white space at both ends and nothing else. */
  lemma StripSpaceAround(u: Unicode, left: string, s: string, right: string)
    requires AllSpace(u, left) && AllSpace(u, right) && IsPlain(u, s)
    ensures Strip(u, left + s + right) == s
  {
    assert left + s + right == left + (s + right);
    StripLeftSpace(u, left, s + right);
    StripRightSpace(u, s, right);
  }

  // ---------- split and join ----------

  /** s.split(c) for a one-character separator. */
  function Split(s: string, c: char): (parts: seq<string>)
    ensures |parts| >= 1
  {
    if s == "" then [""]
    else
      var rest := Split(s[1..], c);
      if s[0] == c then [""] + rest else [[s[0]] + rest[0]] + rest[1..]
  }

  function Join(parts: seq<string>, c: char): string
    requires |parts| >= 1
  {
    if |parts| == 1 then parts[0] else parts[0] + [c] + Join(parts[1..], c)
  }

  lemma {:induction false} JoinSplit(s: string, c: char)
    ensures Join(Split(s, c), c) == s
    decreases s
  {
    if s == "" {
    } else {
      var rest := Split(s[1..], c);
      JoinSplit(s[1..], c);
      if s[0] == c {
        assert Split(s, c)[1..] == rest;
        assert "" + [c] + s[1..] == s;
      } else {
        JoinHead(s[0], rest, c);
        assert [s[0]] + s[1..] == s;
      }
    }
  }

  lemma JoinHead(x: char, parts: seq<string>, c: char)
    requires |parts| >= 1
    ensures Join([[x] + parts[0]] + parts[1..], c) == [x] + Join(parts, c)
  {
  }

  lemma {:induction false} SplitAt(a: string, c: char, b: string)
    ensures Split(a + [c] + b, c) == Split(a, c) + Split(b, c)
    decreases a
  {
    var s := a + [c] + b;
    if a == "" {
      assert s[1..] == b;
    } else {
      var rest, tail := Split(a[1..], c), Split(b, c);
      assert s[0] == a[0] && s[1..] == a[1..] + [c] + b;
      SplitAt(a[1..], c, b);
      assert Split(s[1..], c) == rest + tail;
      if a[0] == c {
        assert [""] + (rest + tail) == ([""] + rest) + tail;
      } else {
        HeadOfConcat(a[0], rest, tail);
      }
    }
  }

  lemma HeadOfConcat(x: char, rest: seq<string>, tail: seq<string>)
    requires |rest| >= 1
    ensures [[x] + (rest + tail)[0]] + (rest + tail)[1..] == ([[x] + rest[0]] + rest[1..]) + tail
  {
  }

  /** A character other than the separator is in the text iff it is in a part. */
  lemma {:induction false} CharInParts(s: string, c: char, x: char)
    requires x != c
    ensures x in s <==> exists part :: part in Split(s, c) && x in part
    decreases s
  {
    if s != "" {
      var rest := Split(s[1..], c);
      CharInParts(s[1..], c, x);
      assert s == [s[0]] + s[1..];
      if s[0] == c {
        assert forall part :: part in Split(s, c) <==> part == "" || part in rest;
      } else {
        assert Split(s, c) == [[s[0]] + rest[0]] + rest[1..];
        assert rest == [rest[0]] + rest[1..];
        assert forall part :: part in rest <==> part == rest[0] || part in rest[1..];
        assert [s[0]] + rest[0] in Split(s, c);
        assert forall part | part in rest[1..] :: part in Split(s, c);
      }
    }
  }

  lemma {:induction false} JoinAt(ps: seq<string>, c: char, qs: seq<string>)
    requires |ps| >= 1 && |qs| >= 1
    ensures Join(ps + qs, c) == Join(ps, c) + [c] + Join(qs, c)
    decreases ps
  {
    assert (ps + qs)[1..] == ps[1..] + qs;
    if |ps| == 1 {
      assert ps[1..] + qs == qs;
    } else {
      JoinAt(ps[1..], c, qs);
      assert ps[0] + [c] + (Join(ps[1..], c) + [c] + Join(qs, c)) == (ps[0] + [c] + Join(ps[1..], c)) + [c] + Join(qs, c);
    }
  }

  predicate EndsWith(s: string, t: string) {
    |t| <= |s| && s[|s| - |t|..] == t
  }

  predicate StartsWith(s: string, t: string) {
    |t| <= |s| && s[..|t|] == t
  }

  lemma BeforeEnding(s: string, c: char, t: string) returns (a: string)
    requires EndsWith(s, [c] + t)
    ensures s == a + [c] + t
  {
    a := s[..|s| - |[c] + t|];
  }

  lemma PartsGiveEndsWith(s: string, c: char, t: string, front: seq<string>)
    requires |front| >= 1 && Split(s, c) == front + Split(t, c)
    ensures EndsWith(s, [c] + t)
  {
    JoinAt(front, c, Split(t, c));
    JoinSplit(s, c);
    JoinSplit(t, c);
    var a := Join(front, c);
    assert s == a + ([c] + t);
    assert s[|a|..] == [c] + t;
  }

  /** s ends with the separator and t iff the parts of t are the last of strictly more
      parts of s. */
  lemma EndsWithIsParts(s: string, c: char, t: string)
    ensures EndsWith(s, [c] + t) <==>
            |Split(t, c)| < |Split(s, c)| && Split(s, c)[|Split(s, c)| - |Split(t, c)|..] == Split(t, c)
  {
    var sParts, tParts := Split(s, c), Split(t, c);
    if EndsWith(s, [c] + t) {
      var a := BeforeEnding(s, c, t);
      SplitAt(a, c, t);
      assert sParts[|sParts| - |tParts|..] == tParts;
    }
    if |tParts| < |sParts| && sParts[|sParts| - |tParts|..] == tParts {
      assert sParts == sParts[..|sParts| - |tParts|] + tParts;
      PartsGiveEndsWith(s, c, t, sParts[..|sParts| - |tParts|]);
    }
  }

  /** s starts with t and the separator iff the parts of t are the first of strictly more
      parts of s. */
  lemma StartsWithIsParts(s: string, c: char, t: string)
    ensures StartsWith(s, t + [c]) <==> Split(t, c) < Split(s, c)
  {
    var sParts, tParts := Split(s, c), Split(t, c);
    if StartsWith(s, t + [c]) {
      var b := s[|t| + 1..];
      assert s == t + [c] + b;
      SplitAt(t, c, b);
    }
    if tParts < sParts {
      var back := sParts[|tParts|..];
      assert sParts == tParts + back;
      JoinAt(tParts, c, back);
      JoinSplit(s, c);
      JoinSplit(t, c);
      assert s == (t + [c]) + Join(back, c);
    }
  }

  lemma SplitInjective(s: string, t: string, c: char)
    requires Split(s, c) == Split(t, c)
    ensures s == t
  {
    JoinSplit(s, c);
    JoinSplit(t, c);
  }
}
