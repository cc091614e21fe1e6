/**
 Validation of the patch series on a sparse tree: only files that a patch reads are
 fetched, when first needed, and the patches really apply in order.
 */
module SeriesValidation {
  import opened Basics
  import opened Text
  import opened PinnedSources

  // ---------- patches ----------

  /** The patch tool on the files a patch names: on success the text of each file it
      leaves, on rejection whatever it changed before it gave up. */
  datatype Hunks = Applied(text: string -> Bytes) | Rejected(leftover: map<string, Bytes>)

  /** `preimages` are the files it expects, `creates` those with pre-image /dev/null. */
  datatype Patch = Patch(preimages: seq<string>, creates: set<string>, deletes: set<string>, hunks: map<string, Bytes> -> Hunks)

  function Touched(p: Patch): set<string> {
    (set f | f in p.preimages) + p.creates
  }

  function Removes(p: Patch): set<string> {
    p.deletes * Touched(p)
  }

  // ---------- the sparse tree ----------

  type Tree = map<string, Bytes>

  function View(t: Tree, p: Patch): Tree {
    map f | f in t && f in Touched(p) :: t[f]
  }

  function Patched(t: Tree, p: Patch, text: string -> Bytes): Tree {
    (t - Removes(p)) + map f | f in Touched(p) - Removes(p) :: text(f)
  }

  /** The tree with the pre-images fetched that it lacks, and the number not to be had. */
  ghost function Materialized(w: World, t: Tree, paths: seq<string>): (Tree, nat)
    requires DEPS in w.src
    decreases paths
  {
    if paths == [] then (t, 0)
    else if paths[0] in t then Materialized(w, t, paths[1..])
    else
      match Lookup(w, paths[0])
      case Some(b) => Materialized(w, t[paths[0] := b], paths[1..])
      case None => var (t', n) := Materialized(w, t, paths[1..]); (t', n + 1)
  }

  /** One patch of the series: the tree after it and the number of problems. */
  ghost function SparseStep(w: World, t: Tree, p: Patch): (Tree, nat)
    requires DEPS in w.src
  {
    var (m, missing) := Materialized(w, t, p.preimages);
    if missing > 0 then (m, missing)
    else
      match p.hunks(View(m, p))
      case Applied(text) => (Patched(m, p, text), 0)
      case Rejected(leftover) => (m + leftover, 1)
  }

  ghost function SparseRun(w: World, t: Tree, series: seq<Patch>): (Tree, nat)
    requires DEPS in w.src
    decreases series
  {
    if series == [] then (t, 0)
    else
      var (t1, n1) := SparseStep(w, t, series[0]);
      var (t2, n2) := SparseRun(w, t1, series[1..]);
      (t2, n1 + n2)
  }

  predicate Cached(files: map<string, Bytes>, path: string) {
    path in files || path + ABSENT in files
  }

  predicate Lacks(files: map<string, Bytes>, t: Tree, paths: seq<string>) {
    exists f :: f in paths && f !in t && !Cached(files, f)
  }

  /** Some patch of the series, when its turn comes, has a pre-image that is neither in the
      tree nor in the cache. */
  ghost predicate RunLacks(w: World, files: map<string, Bytes>, t: Tree, series: seq<Patch>)
    requires DEPS in w.src
    decreases series
  {
    series != [] &&
    (Lacks(files, t, series[0].preimages) || RunLacks(w, files, SparseStep(w, t, series[0]).0, series[1..]))
  }

  /** What joined the tree was in the cache. */
  predicate CameFrom(files: map<string, Bytes>, t: Tree, m: Tree) {
    forall f | f in m && f !in t :: Cached(files, f)
  }

  lemma LacksNext(files: map<string, Bytes>, t: Tree, m: Tree, paths: seq<string>, i: nat)
    requires i < |paths| && !Lacks(files, t, paths[..i]) && CameFrom(files, t, m)
    requires paths[i] in m || Cached(files, paths[i])
    ensures !Lacks(files, t, paths[..i + 1])
  {
    assert paths[..i + 1] == paths[..i] + [paths[i]];
  }

  lemma MaterializedNext(w: World, m: Tree, paths: seq<string>, i: nat)
    requires DEPS in w.src && i < |paths|
    ensures var look := Lookup(w, paths[i]);
            Materialized(w, m, paths[i..]) ==
              if paths[i] in m then Materialized(w, m, paths[i + 1..])
              else if look.Some? then Materialized(w, m[paths[i] := look.value], paths[i + 1..])
              else (Materialized(w, m, paths[i + 1..]).0, Materialized(w, m, paths[i + 1..]).1 + 1)
  {
    assert paths[i..][0] == paths[i] && paths[i..][1..] == paths[i + 1..];
  }

  lemma SeriesNext(w: World, files: map<string, Bytes>, t: Tree, series: seq<Patch>, i: nat)
    requires DEPS in w.src && i < |series|
    ensures var (t', n) := SparseStep(w, t, series[i]);
            && SparseRun(w, t, series[i..]) == (SparseRun(w, t', series[i + 1..]).0, n + SparseRun(w, t', series[i + 1..]).1)
            && (RunLacks(w, files, t, series[i..]) <==>
                  Lacks(files, t, series[i].preimages) || RunLacks(w, files, t', series[i + 1..]))
  {
    assert series[i..][0] == series[i] && series[i..][1..] == series[i + 1..];
  }

  ghost predicate PlainNames(series: seq<Patch>) {
    forall i | 0 <= i < |series| :: forall f | f in series[i].preimages :: !EndsWith(f, ABSENT)
  }

  /** validate_series; the temporary tree is returned beside the exit code. None where the
      fetcher dies, offline. */
  method ValidateSeries(w: World, fetcher: PinnedSourceFetcher, series: seq<Patch>) returns (code: Option<int>, tree: Tree)
    requires DEPS in w.src && Coherent(w, fetcher.Contents()) && PlainNames(series)
    modifies fetcher
    ensures Coherent(w, fetcher.Contents())
    ensures code.None? <==> fetcher.offline && RunLacks(w, old(fetcher.files), map[], series)
    ensures code.Some? ==> tree == SparseRun(w, map[], series).0
    ensures code.Some? ==> code.value == (if SparseRun(w, map[], series).1 == 0 then 0 else 1)
  {
    var t: Tree, failures: nat := map[], 0;
    ghost var files := fetcher.files;
    var i := 0;
    while i < |series|
      invariant 0 <= i <= |series|
      invariant Coherent(w, fetcher.Contents())
      invariant fetcher.offline ==> fetcher.files == files
      invariant fetcher.offline ==> (RunLacks(w, files, map[], series) <==> RunLacks(w, files, t, series[i..]))
      invariant SparseRun(w, map[], series) ==
                (SparseRun(w, t, series[i..]).0, failures + SparseRun(w, t, series[i..]).1)
    {
      SeriesNext(w, files, t, series, i);
      var next, problems, died := ValidateOne(w, fetcher, t, series[i]);
      if died {
        return None, t;
      }
      t, failures := next, failures + problems;
      i := i + 1;
    }
    tree := t;
    code := Some(if failures > 0 then 1 else 0);
  }

  /** One turn of the loop of validate_series. */
  method ValidateOne(w: World, fetcher: PinnedSourceFetcher, t: Tree, p: Patch)
    returns (next: Tree, problems: nat, died: bool)
    requires DEPS in w.src && Coherent(w, fetcher.Contents())
    requires forall f | f in p.preimages :: !EndsWith(f, ABSENT)
    modifies fetcher
    ensures Coherent(w, fetcher.Contents())
    ensures fetcher.offline ==> fetcher.files == old(fetcher.files)
    ensures died <==> fetcher.offline && Lacks(old(fetcher.files), t, p.preimages)
    ensures !died ==> (next, problems) == SparseStep(w, t, p)
  {
    next, problems, died := Materialize(w, fetcher, t, p.preimages);
    if !died && problems == 0 {
      match p.hunks(View(next, p))
      case Applied(text) => next := Patched(next, p, text);
      case Rejected(leftover) => next, problems := next + leftover, 1;
    }
  }

  /** GetFile as a caller with a truthful cache sees it. */
  method Ask(w: World, fetcher: PinnedSourceFetcher, path: string) returns (r: Reply)
    requires DEPS in w.src && Coherent(w, fetcher.Contents()) && !EndsWith(path, ABSENT)
    modifies fetcher
    ensures Coherent(w, fetcher.Contents())
    ensures fetcher.offline ==> fetcher.files == old(fetcher.files)
    ensures r.Died? <==> fetcher.offline && !Cached(old(fetcher.files), path)
    ensures !r.Died? ==> r == (if Lookup(w, path).Some? then Content(Lookup(w, path).value) else NotThere)
  {
    GetAgrees(w, fetcher.Contents(), path);
    r := fetcher.GetFile(w, path);
  }

  /** The pre-images of one patch, online or offline. */
  method Materialize(w: World, fetcher: PinnedSourceFetcher, t: Tree, paths: seq<string>)
    returns (m: Tree, problems: nat, died: bool)
    requires DEPS in w.src && Coherent(w, fetcher.Contents())
    requires forall f | f in paths :: !EndsWith(f, ABSENT)
    modifies fetcher
    ensures Coherent(w, fetcher.Contents())
    ensures fetcher.offline ==> fetcher.files == old(fetcher.files)
    ensures died <==> fetcher.offline && Lacks(old(fetcher.files), t, paths)
    ensures !died ==> (m, problems) == Materialized(w, t, paths)
  {
    m, problems, died := t, 0, false;
    ghost var files := fetcher.files;
    var i := 0;
    while i < |paths|
      invariant 0 <= i <= |paths|
      invariant Coherent(w, fetcher.Contents())
      invariant fetcher.offline ==> fetcher.files == files
      invariant t.Keys <= m.Keys
      invariant fetcher.offline ==> !Lacks(files, t, paths[..i]) && CameFrom(files, t, m)
      invariant Materialized(w, t, paths) == (Materialized(w, m, paths[i..]).0, problems + Materialized(w, m, paths[i..]).1)
    {
      MaterializedNext(w, m, paths, i);
      assert paths[i] in paths;
      if fetcher.offline && (paths[i] in m || Cached(files, paths[i])) {
        LacksNext(files, t, m, paths, i);
      }
      if paths[i] !in m {
        var r := Ask(w, fetcher, paths[i]);
        match r
        case Content(b) => m := m[paths[i] := b];
        case NotThere => problems := problems + 1;
        case Died => return m, problems, true;
      }
      i := i + 1;
    }
    assert paths[..i] == paths;
  }

  // ---------- the full tree ----------

  type FullTree = imap<string, Bytes>

  ghost function Pinned(w: World): FullTree
    requires DEPS in w.src
  {
    imap f | Lookup(w, f).Some? :: Lookup(w, f).value
  }

  ghost function FullView(t: FullTree, p: Patch): Tree {
    map f | f in Touched(p) && f in t :: t[f]
  }

  ghost function FullPatched(t: FullTree, p: Patch, text: string -> Bytes): FullTree {
    imap f | (f in t && f !in Removes(p)) || f in Touched(p) - Removes(p) :: if f in Touched(p) then text(f) else t[f]
  }

  /** The patch applied to a complete tree; None if a pre-image is missing or hunks fail. */
  ghost function FullStep(t: FullTree, p: Patch): Option<FullTree> {
    if exists f :: f in p.preimages && f !in t then None
    else
      match p.hunks(FullView(t, p))
      case Applied(text) => Some(FullPatched(t, p, text))
      case Rejected(_) => None
  }

  ghost function FullRun(t: FullTree, series: seq<Patch>): Option<FullTree>
    decreases series
  {
    if series == [] then Some(t)
    else
      match FullStep(t, series[0])
      case None => None
      case Some(t1) => FullRun(t1, series[1..])
  }

  // ---------- what the sparse tree needs of a series ----------

  /** No patch creates a file that exists at the pin and that no patch touched before. */
  ghost predicate CreatesFresh(w: World, series: seq<Patch>, touched: set<string>)
    requires DEPS in w.src
    decreases series
  {
    series == [] ||
    ((forall f | f in series[0].creates && f !in touched :: Lookup(w, f) == None) &&
     CreatesFresh(w, series[1..], touched + Touched(series[0])))
  }

  /** The patch tool, run with --forward, does not create a file that is already there. */
  ghost predicate RefusesExisting(p: Patch) {
    forall t: Tree, f | f in p.creates && f in t :: p.hunks(t).Rejected?
  }

  /** No patch expects a file that an earlier one deleted and none in between created. */
  predicate NoStaleReads(series: seq<Patch>, gone: set<string>)
    decreases series
  {
    series == [] ||
    ((forall f | f in series[0].preimages :: f !in gone) &&
     NoStaleReads(series[1..], GoneAfter(gone, series[0])))
  }

  function GoneAfter(gone: set<string>, p: Patch): set<string> {
    gone - p.creates + Removes(p)
  }

  /** The sparse tree is the full one on the touched files, `gone` are the touched files
      neither tree has, and elsewhere the full tree is the pin. */
  ghost predicate Agrees(w: World, t: Tree, full: FullTree, touched: set<string>, gone: set<string>)
    requires DEPS in w.src
  {
    && t.Keys <= touched
    && (forall f | f in touched :: (f in t <==> f in full) && (f in t ==> t[f] == full[f]))
    && (forall f :: f in gone <==> f in touched && f !in full)
    && (forall f | f !in touched :: (f in full <==> Lookup(w, f).Some?) && (f in full ==> Lookup(w, f) == Some(full[f])))
  }

  lemma FetchAgrees(w: World, t: Tree, full: FullTree, touched: set<string>, gone: set<string>, f: string)
    requires DEPS in w.src && Agrees(w, t, full, touched, gone)
    requires f !in t && f !in gone
    ensures f in full <==> Lookup(w, f).Some?
    ensures Lookup(w, f).Some? ==> Agrees(w, t[f := Lookup(w, f).value], full, touched + {f}, gone)
  {
  }

  /** After fetching: nothing is missing iff the full tree has every pre-image, and then the
      two trees agree on the pre-images as well. */
  lemma {:induction false} MaterializeAgrees(w: World, t: Tree, full: FullTree, touched: set<string>, gone: set<string>, paths: seq<string>)
    requires DEPS in w.src && Agrees(w, t, full, touched, gone)
    requires forall f | f in paths :: f !in gone
    ensures var (m, missing) := Materialized(w, t, paths);
            && (missing == 0 <==> forall f | f in paths :: f in full)
            && (missing == 0 ==> Agrees(w, m, full, touched + (set f | f in paths), gone))
    decreases paths
  {
    if paths == [] {
      assert touched + (set f | f in paths) == touched;
    } else {
      var f, rest := paths[0], paths[1..];
      assert forall x :: x in paths <==> x == f || x in rest;
      if f in t {
        assert touched + (set x | x in paths) == touched + (set x | x in rest);
        MaterializeAgrees(w, t, full, touched, gone, rest);
      } else {
        FetchAgrees(w, t, full, touched, gone, f);
        if Lookup(w, f).Some? {
          assert touched + (set x | x in paths) == (touched + {f}) + (set x | x in rest);
          MaterializeAgrees(w, t[f := Lookup(w, f).value], full, touched + {f}, gone, rest);
        } else {
          assert Materialized(w, t, paths).1 == Materialized(w, t, rest).1 + 1;
          assert f in paths && f !in full;
        }
      }
    }
  }

  lemma PatchAgrees(w: World, m: Tree, full: FullTree, touched: set<string>, gone: set<string>, p: Patch, text: string -> Bytes)
    requires DEPS in w.src && Agrees(w, m, full, touched + (set f | f in p.preimages), gone)
    requires forall f | f in p.creates && f !in touched :: Lookup(w, f) == None
    requires forall f | f in p.preimages :: f !in gone
    ensures Agrees(w, Patched(m, p, text), FullPatched(full, p, text), touched + Touched(p), GoneAfter(gone, p))
  {
  }

  lemma ViewsAgree(w: World, m: Tree, full: FullTree, touched: set<string>, gone: set<string>, p: Patch)
    requires DEPS in w.src && Agrees(w, m, full, touched + (set f | f in p.preimages), gone)
    requires forall f | f in p.creates && f !in touched :: Lookup(w, f) == None
    ensures View(m, p) == FullView(full, p)
  {
  }

  lemma StepAgrees(w: World, t: Tree, full: FullTree, touched: set<string>, gone: set<string>, p: Patch)
    requires DEPS in w.src && Agrees(w, t, full, touched, gone)
    requires forall f | f in p.preimages :: f !in gone
    requires forall f | f in p.creates && f !in touched :: Lookup(w, f) == None
    ensures var (t', problems) := SparseStep(w, t, p);
            && (problems == 0 <==> FullStep(full, p).Some?)
            && (problems == 0 ==> Agrees(w, t', FullStep(full, p).value, touched + Touched(p), GoneAfter(gone, p)))
  {
    var (m, missing) := Materialized(w, t, p.preimages);
    MaterializeAgrees(w, t, full, touched, gone, p.preimages);
    if missing == 0 {
      ViewsAgree(w, m, full, touched, gone, p);
      match p.hunks(View(m, p))
      case Applied(text) => PatchAgrees(w, m, full, touched, gone, p, text);
      case Rejected(_) =>
    }
  }

  function AllTouched(series: seq<Patch>): set<string>
    decreases series
  {
    if series == [] then {} else Touched(series[0]) + AllTouched(series[1..])
  }

  /** A patch that expects a deleted file, or creates one the pin has, fails on the full tree. */
  lemma UntrustworthyStepFails(w: World, t: Tree, full: FullTree, touched: set<string>, gone: set<string>, p: Patch, f: string)
    requires DEPS in w.src && Agrees(w, t, full, touched, gone) && RefusesExisting(p)
    requires (f in p.preimages && f in gone) || (f in p.creates && f !in touched && Lookup(w, f) != None)
    ensures FullStep(full, p) == None
  {
    if f in p.creates && f !in touched {
      assert f in FullView(full, p);
    }
  }

  lemma {:induction false} RunAgrees(w: World, t: Tree, full: FullTree, touched: set<string>, gone: set<string>, series: seq<Patch>)
    requires DEPS in w.src && Agrees(w, t, full, touched, gone)
    requires forall i | 0 <= i < |series| :: RefusesExisting(series[i])
    ensures var (t', problems) := SparseRun(w, t, series);
            && (FullRun(full, series).Some? <==>
                  problems == 0 && NoStaleReads(series, gone) && CreatesFresh(w, series, touched))
            && (FullRun(full, series).Some? ==>
                  exists gone' :: Agrees(w, t', FullRun(full, series).value, touched + AllTouched(series), gone'))
    decreases series
  {
    if series == [] {
      assert touched + AllTouched(series) == touched;
      assert Agrees(w, t, full, touched + AllTouched(series), gone);
    } else {
      var p := series[0];
      if stale :| stale in p.preimages && stale in gone {
        UntrustworthyStepFails(w, t, full, touched, gone, p, stale);
      } else if f :| f in p.creates && f !in touched && Lookup(w, f) != None {
        UntrustworthyStepFails(w, t, full, touched, gone, p, f);
      } else {
        StepAgrees(w, t, full, touched, gone, p);
        var (t1, n1) := SparseStep(w, t, p);
        if n1 == 0 {
          RunAgrees(w, t1, FullStep(full, p).value, touched + Touched(p), GoneAfter(gone, p), series[1..]);
          assert (touched + Touched(p)) + AllTouched(series[1..]) == touched + AllTouched(series);
        }
      }
    }
  }

  ghost function Restricted(full: FullTree, files: set<string>): Tree {
    map f | f in files && f in full :: full[f]
  }

  /** The full tree has the pin's text, or none, for every other file. */
  ghost predicate PinnedOutside(w: World, full: FullTree, files: set<string>)
    requires DEPS in w.src
  {
    forall f | f !in files :: (f in full <==> Lookup(w, f).Some?) && (f in full ==> Lookup(w, f) == Some(full[f]))
  }

  lemma AgreesIsRestriction(w: World, t: Tree, full: FullTree, touched: set<string>, gone: set<string>)
    requires DEPS in w.src && Agrees(w, t, full, touched, gone)
    ensures t == Restricted(full, touched) && PinnedOutside(w, full, touched)
  {
  }

  /** What a zero return is worth, exactly: the whole series applies in order to the full
      pinned tree iff validation finds no problem, no patch expects a file that an earlier
      one deleted, and no patch creates an untouched file that the pin has. The sparse
      tree is then the full result on the touched files, which are the only ones that
      can differ from the pin. */
  lemma SparseRefinesFull(w: World, series: seq<Patch>)
    requires DEPS in w.src && forall i | 0 <= i < |series| :: RefusesExisting(series[i])
    ensures var (t, problems) := SparseRun(w, map[], series);
            var full := FullRun(Pinned(w), series);
            && (full.Some? <==> problems == 0 && NoStaleReads(series, {}) && CreatesFresh(w, series, {}))
            && (full.Some? ==> t == Restricted(full.value, AllTouched(series)) &&
                               PinnedOutside(w, full.value, AllTouched(series)))
  {
    RunAgrees(w, map[], Pinned(w), {}, {}, series);
    if FullRun(Pinned(w), series).Some? {
      var t, full := SparseRun(w, map[], series).0, FullRun(Pinned(w), series).value;
      assert {} + AllTouched(series) == AllTouched(series);
      var gone :| Agrees(w, t, full, AllTouched(series), gone);
      AgreesIsRestriction(w, t, full, AllTouched(series), gone);
    }
  }

  /** The condition on deleted files is not implied: one patch deletes a file of the pin, the next
      expects it; validation fetches the file again and passes, the real series fails. */
  lemma ReadAfterDeletePasses(w: World, file: string, text: string -> Bytes)
    requires DEPS in w.src && file in w.src
    ensures var remove := Patch([file], {}, {file}, _ => Applied(text));
            var edit := Patch([file], {}, {}, _ => Applied(text));
            && SparseRun(w, map[], [remove, edit]).1 == 0
            && FullRun(Pinned(w), [remove, edit]) == None
            && CreatesFresh(w, [remove, edit], {})
            && RefusesExisting(remove) && RefusesExisting(edit)
  {
    var remove := Patch([file], {}, {file}, _ => Applied(text));
    var edit := Patch([file], {}, {}, _ => Applied(text));
    assert [file][1..] == [] && [remove, edit][1..] == [edit] && [edit][1..] == [];
    assert Touched(remove) == {file} == Removes(remove);
    var m := map[file := w.src[file]];
    assert Materialized(w, map[], [file]) == Materialized(w, m, []) == (m, 0);
    assert Patched(m, remove, text) == map[];
    assert SparseStep(w, map[], remove) == (map[], 0);
    assert SparseStep(w, map[], edit).1 == 0;
    assert SparseRun(w, map[], [edit]).1 == 0;
    assert FullStep(Pinned(w), remove) == Some(FullPatched(Pinned(w), remove, text));
    assert file !in FullPatched(Pinned(w), remove, text);
    assert file in [file];
    assert FullStep(FullPatched(Pinned(w), remove, text), edit) == None;
  }

  /** Nor is the one on created files: the sparse tree does not show a patch that the file it
      creates is already there. */
  lemma CreateOverExistingPasses(w: World, file: string, text: string -> Bytes)
    requires DEPS in w.src && file in w.src
    ensures var create := Patch([], {file}, {}, (t: Tree) => if file in t then Rejected(map[]) else Applied(text));
            && SparseRun(w, map[], [create]).1 == 0
            && NoStaleReads([create], {}) && RefusesExisting(create)
            && FullRun(Pinned(w), [create]) == None
  {
  }
}
