/** The isolated source generation: assembled from old and reviewed files, staged
    as a directory tree, published by one rename or undone exactly
    (`deployment/analytics_isolated_source_install.py`). */
module SourceInstall {
  import opened Wrappers
  import opened SourceAudit
  import opened SourceNames

  /** What the kernel lets one create. */
  predicate CanMake(t: Tree, p: Path) {
    && p != [] && Ordinary(p[|p| - 1])
    && p !in t && p[..|p| - 1] in t && t[p[..|p| - 1]].Dir?
  }

  // ----- the lists of what was created ---------------------------------------

  /** The two lists name everything below the staging directory once, each
      directory after those above it. */
  predicate Accounted(t: Tree, dirs: seq<Path>, files: seq<Path>) {
    && IsDir(t, [])
    && (forall p {:trigger Named(p, dirs, files)} | p in t && p != [] :: Named(p, dirs, files))
    && (forall i | 0 <= i < |dirs| :: DirAt(t, dirs, i))
    && (forall i | 0 <= i < |files| :: FileAt(t, files, i))
  }

  predicate Named(p: Path, dirs: seq<Path>, files: seq<Path>)
    requires p != []
  {
    Ordinary(p[|p| - 1]) && (p in dirs || p in files)
  }

  predicate FileAt(t: Tree, files: seq<Path>, i: nat)
    requires i < |files|
  {
    files[i] in t && t[files[i]].File? && files[i] != [] && files[i] !in files[..i]
  }

  predicate DirAt(t: Tree, dirs: seq<Path>, i: nat)
    requires i < |dirs|
  {
    && dirs[i] in t && t[dirs[i]].Dir? && dirs[i] != [] && dirs[i] !in dirs[..i]
    && forall n | 1 <= n < |dirs[i]| :: dirs[i][..n] in dirs[..i]
  }

  lemma NotListed(t: Tree, dirs: seq<Path>, files: seq<Path>, p: Path)
    requires Accounted(t, dirs, files) && p !in t
    ensures p !in dirs && p !in files
  {
    forall k | 0 <= k < |dirs| ensures dirs[k] != p {
      assert DirAt(t, dirs, k);
    }
    forall k | 0 <= k < |files| ensures files[k] != p {
      assert FileAt(t, files, k);
    }
  }

  /** A directory listed is there, with everything above it listed before. */
  lemma ListedAbove(t: Tree, dirs: seq<Path>, files: seq<Path>, p: Path)
    requires Accounted(t, dirs, files) && p in t && t[p].Dir? && p != []
    ensures forall n | 1 <= n <= |p| :: p[..n] in dirs
  {
    assert Named(p, dirs, files);
    forall k | 0 <= k < |files| ensures files[k] != p {
      assert FileAt(t, files, k);
    }
    var k :| 0 <= k < |dirs| && dirs[k] == p;
    assert DirAt(t, dirs, k) && p[..|p|] == p;
  }

  lemma UnlistedIsAbsent(t: Tree, dirs: seq<Path>, files: seq<Path>, p: Path)
    requires Accounted(t, dirs, files) && p != [] && p !in dirs && p !in files
    ensures p !in t
  {
    assert !Named(p, dirs, files);
  }

  lemma AccountedGrowsDir(t: Tree, dirs: seq<Path>, files: seq<Path>, p: Path, mode: nat)
    requires Accounted(t, dirs, files) && CanMake(t, p)
    ensures Accounted(t[p := Dir(mode)], dirs + [p], files)
  {
    var t', dirs' := t[p := Dir(mode)], dirs + [p];
    NotListed(t, dirs, files, p);
    forall i | 0 <= i < |dirs'| ensures DirAt(t', dirs', i) {
      assert i < |dirs| ==> DirAt(t, dirs, i) && dirs'[..i] == dirs[..i];
      if i == |dirs| {
        assert dirs'[..i] == dirs;
        var q := p[..|p| - 1];
        if q != [] {
          ListedAbove(t, dirs, files, q);
          assert forall n | 1 <= n <= |q| :: p[..n] == q[..n];
        }
      }
    }
    forall i | 0 <= i < |files| ensures FileAt(t', files, i) {
      assert FileAt(t, files, i);
    }
    forall q | q in t' && q != [] ensures Named(q, dirs', files) {
      assert q != p ==> Named(q, dirs, files);
    }
  }

  /** The last directory made is empty once the files are gone. */
  lemma LastIsEmpty(t: Tree, dirs: seq<Path>)
    requires Accounted(t, dirs, []) && dirs != []
    ensures IsDir(t, dirs[|dirs| - 1])
    ensures forall p <- t :: !(dirs[|dirs| - 1] < p)
    ensures Accounted(t - {dirs[|dirs| - 1]}, dirs[..|dirs| - 1], [])
  {
    var last := |dirs| - 1;
    var t', dirs' := t - {dirs[last]}, dirs[..last];
    assert DirAt(t, dirs, last);
    forall p | p in t ensures !(dirs[last] < p) {
      if p != [] {
        assert Named(p, dirs, []);
        var k :| 0 <= k < |dirs| && dirs[k] == p;
        assert DirAt(t, dirs, k);
        PrefixIsTake(dirs[last], p);
      }
    }
    forall i | 0 <= i < last ensures DirAt(t', dirs', i) {
      assert DirAt(t, dirs, i) && dirs'[..i] == dirs[..i];
      assert dirs[i] in dirs';
    }
    forall q | q in t' && q != [] ensures Named(q, dirs', []) {
      assert Named(q, dirs, []);
    }
  }

  lemma AccountedGrowsFile(t: Tree, dirs: seq<Path>, files: seq<Path>, p: Path, node: Node)
    requires Accounted(t, dirs, files) && CanMake(t, p) && node.File?
    ensures Accounted(t[p := node], dirs, files + [p])
  {
    var t', files' := t[p := node], files + [p];
    NotListed(t, dirs, files, p);
    forall i | 0 <= i < |dirs| ensures DirAt(t', dirs, i) {
      assert DirAt(t, dirs, i);
    }
    forall i | 0 <= i < |files'| ensures FileAt(t', files', i) {
      assert files'[..i] == files[..i];
      assert i < |files| ==> FileAt(t, files, i);
    }
    forall q | q in t' && q != [] ensures Named(q, dirs, files') {
      assert q != p ==> Named(q, dirs, files);
    }
  }

  /** Overwriting a node with one of its kind keeps the account. */
  lemma AccountedRewrites(t: Tree, dirs: seq<Path>, files: seq<Path>, p: Path, node: Node)
    requires Accounted(t, dirs, files) && p in t && t[p].Dir? == node.Dir?
    ensures Accounted(t[p := node], dirs, files)
  {
    var t' := t[p := node];
    forall i | 0 <= i < |dirs| ensures DirAt(t', dirs, i) {
      assert DirAt(t, dirs, i);
    }
    forall i | 0 <= i < |files| ensures FileAt(t', files, i) {
      assert FileAt(t, files, i);
    }
    forall q | q in t' && q != [] ensures Named(q, dirs, files) {
      assert q in t;
    }
  }

  lemma AccountedShrinks(t: Tree, dirs: seq<Path>, files: seq<Path>)
    requires Accounted(t, dirs, files) && files != []
    ensures files[|files| - 1] in t && t[files[|files| - 1]].File?
    ensures Accounted(t - {files[|files| - 1]}, dirs, files[..|files| - 1])
  {
    var last := |files| - 1;
    var p, files' := files[last], files[..last];
    var t' := t - {p};
    assert FileAt(t, files, last);
    forall i | 0 <= i < |dirs| ensures DirAt(t', dirs, i) {
      assert DirAt(t, dirs, i);
    }
    forall i | 0 <= i < last ensures FileAt(t', files', i) {
      assert FileAt(t, files, i) && files'[..i] == files[..i];
      assert files[i] in files';
    }
    forall q | q in t' && q != [] ensures Named(q, dirs, files') {
      assert Named(q, dirs, files);
    }
  }

  /** Either the lists account for everything, or `extra` was made and not listed. */
  predicate AccountedBut(t: Tree, dirs: seq<Path>, files: seq<Path>, extra: Option<Path>) {
    && (extra == None ==> Accounted(t, dirs, files))
    && (extra.Some? ==> extra.value != [] && extra.value in t && extra.value !in dirs && extra.value !in files)
  }

  /** A part of the old tree, unchanged, and all of it that is not listed. */
  predicate Spares(t0: Tree, t: Tree, dirs: seq<Path>, files: seq<Path>) {
    PartOf(t0, t) && forall p <- t0 :: p !in dirs && p !in files ==> p in t
  }

  predicate PartOf(t0: Tree, t: Tree) {
    forall p <- t :: p in t0 && t[p] == t0[p]
  }

  lemma SparesTwice(t0: Tree, t1: Tree, t: Tree, dirs: seq<Path>, files: seq<Path>)
    requires Spares(t0, t1, [], files) && Spares(t1, t, dirs, [])
    ensures Spares(t0, t, dirs, files)
  {
  }

  /** Nothing but the root and what the generation is made of. */
  predicate OwnOnly(t: Tree, es: seq<Entry>) {
    forall p <- t :: p == [] || p in Ancestors(Names(es)) || p in Paths(es)
  }

  // ----- how far the staging is ----------------------------------------------

  /** The directories of the generation, those above before those below. */
  predicate IsOrder(order: seq<Path>, es: seq<Entry>) {
    && (forall d <- order :: d in Ancestors(Names(es)))
    && (forall d <- Ancestors(Names(es)) :: d in order)
    && InSortOrder(order)
  }

  function Paths(es: seq<Entry>): (r: seq<Path>)
    ensures |r| == |es| && forall i | 0 <= i < |es| :: r[i] == At(es[i])
  {
    seq(|es|, i requires 0 <= i < |es| => At(es[i]))
  }

  /** The first `k` directories and the first `m` files are there as they should be, and nothing else. */
  predicate Laid(t: Tree, es: seq<Entry>, order: seq<Path>, k: nat, m: nat) {
    && k <= |order| && m <= |es|
    && Accounted(t, order[..k], Paths(es)[..m])
    && Contents(t, es, order, k, m)
  }

  predicate Contents(t: Tree, es: seq<Entry>, order: seq<Path>, k: nat, m: nat)
    requires k <= |order| && m <= |es|
  {
    && (forall i | 0 <= i < k :: Has(t, order[i], Dir(PUBLIC_DIR)))
    && (forall i | 0 <= i < m :: Has(t, At(es[i]), File(es[i].raw, PUBLIC_FILE)))
  }

  lemma LaidAccounts(t: Tree, es: seq<Entry>, order: seq<Path>, k: nat, m: nat)
    requires Laid(t, es, order, k, m)
    ensures Accounted(t, order[..k], Paths(es)[..m])
    ensures k == |order| ==> Accounted(t, order, Paths(es)[..m])
    ensures m == 0 ==> Accounted(t, order[..k], [])
    ensures k == 0 && m == 0 ==> Accounted(t, [], [])
    ensures k == |order| && m == 0 ==> Accounted(t, order, [])
    ensures k == |order| && m == |es| ==> Accounted(t, order, Paths(es))
  {
    assert order[..|order|] == order && Paths(es)[..|es|] == Paths(es);
    assert order[..0] == [] && Paths(es)[..0] == [];
  }

  lemma LaidGrowsDirectory(t: Tree, t': Tree, es: seq<Entry>, order: seq<Path>, k: nat)
    requires k < |order| && Contents(t, es, order, k, 0) && t' == t[order[k] := Dir(PUBLIC_DIR)]
    requires Accounted(t', order[..k] + [order[k]], [])
    ensures Laid(t', es, order, k + 1, 0)
  {
    assert order[..k] + [order[k]] == order[..k + 1] && Paths(es)[..0] == [];
  }

  lemma DirectoryAbove(es: seq<Entry>, order: seq<Path>, k: nat)
    requires IsOrder(order, es) && k < |order| && Compatible(es)
    ensures order[k] != [] && Ordinary(order[k][|order[k]| - 1])
    ensures |order[k]| > 1 ==> order[k][..|order[k]| - 1] in order[..k]
    ensures order[k] !in order[..k]
  {
    var d := order[k];
    var i, n := AncestorOf(es, d);
    assert Ordinary(At(es[i])[n - 1]);
    if n > 1 {
      AncestorsClosed(Names(es), d, n - 1);
      var j :| 0 <= j < |order| && order[j] == d[..n - 1];
      assert j < k;
    }
  }

  lemma CanMakeDirectory(t: Tree, es: seq<Entry>, order: seq<Path>, k: nat)
    requires Laid(t, es, order, k, 0) && k < |order| && IsOrder(order, es) && Compatible(es)
    ensures CanMake(t, order[k])
  {
    DirectoryAbove(es, order, k);
    var d := order[k];
    if |d| > 1 {
      var j :| 0 <= j < k && order[j] == d[..|d| - 1];
      assert Has(t, order[j], Dir(PUBLIC_DIR));
    }
    UnlistedIsAbsent(t, order[..k], Paths(es)[..0], d);
  }

  lemma LaidGrowsFile(t: Tree, t': Tree, es: seq<Entry>, order: seq<Path>, m: nat)
    requires m < |es| && Contents(t, es, order, |order|, m) && At(es[m]) !in t
    requires t' == t[At(es[m]) := File(es[m].raw, PUBLIC_FILE)]
    requires Accounted(t', order, Paths(es)[..m] + [At(es[m])])
    ensures Laid(t', es, order, |order|, m + 1)
  {
    assert Paths(es)[..m] + [At(es[m])] == Paths(es)[..m + 1] && order[..|order|] == order;
  }

  lemma FileIsNew(es: seq<Entry>, order: seq<Path>, m: nat)
    requires m < |es| && IsOrder(order, es) && Canonical(Names(es)) && Compatible(es)
    ensures At(es[m]) !in order && At(es[m]) !in Paths(es)[..m]
    ensures |At(es[m])| > 1 ==> At(es[m])[..|At(es[m])| - 1] in order
    ensures Ordinary(At(es[m])[|At(es[m])| - 1])
  {
    var p := At(es[m]);
    if |p| > 1 {
      assert p[..|p| - 1] in Ancestors(Names(es));
    }
    forall i | 0 <= i < |order| ensures order[i] != p {
      var j, n := AncestorOf(es, order[i]);
      assert order[i] < At(es[j]);
    }
    forall i | 0 <= i < m ensures At(es[i]) != p {
      DistinctPaths(es, i, m);
    }
  }

  lemma CanMakeFile(t: Tree, es: seq<Entry>, order: seq<Path>, m: nat)
    requires Laid(t, es, order, |order|, m) && m < |es| && IsOrder(order, es) && Canonical(Names(es)) && Compatible(es)
    ensures CanMake(t, At(es[m]))
  {
    FileIsNew(es, order, m);
    var p := At(es[m]);
    assert order[..|order|] == order;
    UnlistedIsAbsent(t, order, Paths(es)[..m], p);
    if |p| > 1 {
      var j :| 0 <= j < |order| && order[j] == p[..|p| - 1];
      assert Has(t, order[j], Dir(PUBLIC_DIR));
    }
  }

  /** Everything laid is the exact generation, and such a generation is compatible. */
  lemma LaidIsExact(t: Tree, es: seq<Entry>, order: seq<Path>)
    requires Laid(t, es, order, |order|, |es|) && IsOrder(order, es)
    ensures Exact(t, es)
  {
    LaidAccounts(t, es, order, |order|, |es|);
    forall p <- t ensures p == [] || p in Ancestors(Names(es)) || exists i | 0 <= i < |es| :: At(es[i]) == p {
      assert p != [] ==> Named(p, order, Paths(es));
      if p in Paths(es) {
        var i :| 0 <= i < |es| && Paths(es)[i] == p;
        assert At(es[i]) == p;
      }
    }
    forall d <- Ancestors(Names(es)) ensures Has(t, d, Dir(PUBLIC_DIR)) {
      var i :| 0 <= i < |order| && order[i] == d;
      assert Has(t, order[i], Dir(PUBLIC_DIR));
    }
  }

  lemma ExactIsCompatible(t: Tree, es: seq<Entry>, dirs: seq<Path>, files: seq<Path>)
    requires Exact(t, es) && Accounted(t, dirs, files)
    ensures Compatible(es)
  {
    forall i, j | 0 <= i < |es| && 0 <= j < |es| ensures Apart(es[i], es[j]) {
      PrefixIsTake(At(es[i]), At(es[j]));
      assert Has(t, At(es[i]), File(es[i].raw, PUBLIC_FILE));
      assert At(es[i]) !in Ancestors(Names(es));
    }
    forall i, k | 0 <= i < |es| && 0 <= k < |At(es[i])| ensures Ordinary(At(es[i])[k]) {
      var p := At(es[i])[..k + 1];
      assert k + 1 == |At(es[i])| ==> p == At(es[i]);
      assert k + 1 < |At(es[i])| ==> p in Ancestors(Names(es));
      assert p in t && p[|p| - 1] == At(es[i])[k];
      assert Named(p, dirs, files);
    }
  }

  lemma RootModeIsFree(t: Tree, es: seq<Entry>, node: Node)
    requires Exact(t, es)
    ensures Exact(t[[] := node], es)
  {
    forall i | 0 <= i < |es| ensures Has(t[[] := node], At(es[i]), File(es[i].raw, PUBLIC_FILE)) {
      assert Has(t, At(es[i]), File(es[i].raw, PUBLIC_FILE));
    }
    forall d <- Ancestors(Names(es)) ensures Has(t[[] := node], d, Dir(PUBLIC_DIR)) {
      assert Has(t, d, Dir(PUBLIC_DIR));
    }
  }

  /** Entries that can be staged and read back by the audit. */
  predicate Stageable(es: seq<Entry>) {
    Compatible(es) && Small(es)
  }

  /** What can be staged: files the audit can read back, under names without empty or
      dotted parts, none of them a directory above another. */
  lemma StageableIff(es: seq<Entry>)
    ensures Stageable(es) <==>
      && (forall i | 0 <= i < |es| :: |es[i].raw| <= 1048576 && Dotless(Parts(es[i].name)))
      && forall i, j | 0 <= i < |es| && 0 <= j < |es| :: !Under(Parts(es[j].name), Parts(es[i].name))
  {
    forall i | 0 <= i < |es| ensures Nameable(es[i]) <==> Dotless(Parts(es[i].name)) {
      var p := Parts(es[i].name);
      if Nameable(es[i]) {
        forall part <- p ensures part != "" && part != "." && part != ".." {
          var k :| 0 <= k < |p| && p[k] == part;
          assert Ordinary(At(es[i])[k]);
        }
      }
      if Dotless(p) {
        forall k | 0 <= k < |At(es[i])| ensures Ordinary(At(es[i])[k]) {
          assert p[k] in p;
        }
      }
    }
    forall i, j | 0 <= i < |es| && 0 <= j < |es| ensures Apart(es[i], es[j]) <==> !Under(Parts(es[j].name), Parts(es[i].name)) {
      UnderIff(At(es[i]), At(es[j]));
    }
  }

  lemma UnderIff(dir: Path, p: Path)
    ensures dir < p <==> Under(p, dir)
  {
    PrefixIsTake(dir, p);
    if Under(p, dir) {
      assert p == dir + p[|dir|..];
    }
  }

  predicate Dotless(p: Path) {
    forall part <- p :: part != "" && part != "." && part != ".."
  }

  /** Somewhere below the directory. */
  predicate Under(p: Path, dir: Path) {
    |dir| < |p| && p[..|dir|] == dir
  }

  /** Seventy files of mode 0644 in directories of mode 0755, and nothing else. */
  ghost predicate Generation(t: Tree, es: seq<Entry>) {
    && |es| == 70 && [] in t && t[[]] == Dir(0x1ED)
    && (forall i | 0 <= i < |es| :: Placed(t, Parts(es[i].name), es[i].raw))
    && (forall p <- t | p != [] :: exists i | 0 <= i < |es| :: p == Parts(es[i].name) || Under(Parts(es[i].name), p))
  }

  predicate Placed(t: Tree, p: Path, raw: Bytes) {
    p in t && t[p] == File(raw, 0x1A4) && forall n | 1 <= n < |p| :: p[..n] in t && t[p[..n]] == Dir(0x1ED)
  }

  lemma ExactIsGeneration(t: Tree, es: seq<Entry>)
    requires Exact(t, es) && Selected(es) && Has(t, [], Dir(PUBLIC_DIR))
    ensures Generation(t, es)
  {
    forall i | 0 <= i < |es| ensures Placed(t, Parts(es[i].name), es[i].raw) {
      assert Has(t, At(es[i]), File(es[i].raw, PUBLIC_FILE));
      forall n | 1 <= n < |At(es[i])| ensures At(es[i])[..n] in t && t[At(es[i])[..n]] == Dir(0x1ED) {
        assert At(es[i])[..n] in Ancestors(Names(es));
        assert Has(t, At(es[i])[..n], Dir(PUBLIC_DIR));
      }
    }
    forall p <- t | p != [] ensures exists i | 0 <= i < |es| :: p == Parts(es[i].name) || Under(Parts(es[i].name), p) {
      if p in Ancestors(Names(es)) {
        var i, n := AncestorOf(es, p);
        assert Under(Parts(es[i].name), p);
      } else {
        var i :| 0 <= i < |es| && At(es[i]) == p;
        assert p == Parts(es[i].name);
      }
    }
  }

  datatype Result = Staged | Published | Undone | Refused | Left

  lemma ExactDirectory(t: Tree, es: seq<Entry>, order: seq<Path>, i: nat)
    requires Exact(t, es) && Compatible(es) && IsOrder(order, es) && i < |order|
    ensures DirAt(t, order, i) && Ordinary(order[i][|order[i]| - 1])
  {
    DirectoryAbove(es, order, i);
    assert order[i] in Ancestors(Names(es));
    assert Has(t, order[i], Dir(PUBLIC_DIR));
    forall n | 1 <= n < |order[i]| ensures order[i][..n] in order[..i] {
      AncestorsClosed(Names(es), order[i], n);
      var j :| 0 <= j < |order| && order[j] == order[i][..n];
      assert j < i;
    }
  }

  lemma ExactFile(t: Tree, es: seq<Entry>, order: seq<Path>, i: nat)
    requires Exact(t, es) && Compatible(es) && Canonical(Names(es)) && IsOrder(order, es) && i < |es|
    ensures FileAt(t, Paths(es), i) && Ordinary(At(es[i])[|At(es[i])| - 1])
  {
    FileIsNew(es, order, i);
    assert Has(t, At(es[i]), File(es[i].raw, PUBLIC_FILE));
  }

  /** An exact tree of compatible entries holds what its names list, and can be taken down by them. */
  lemma ExactAccounts(t: Tree, es: seq<Entry>, order: seq<Path>)
    requires Exact(t, es) && IsDir(t, []) && Compatible(es) && Canonical(Names(es)) && IsOrder(order, es)
    ensures Accounted(t, order, Paths(es))
  {
    forall i | 0 <= i < |order| ensures DirAt(t, order, i) {
      ExactDirectory(t, es, order, i);
    }
    forall i | 0 <= i < |es| ensures FileAt(t, Paths(es), i) {
      ExactFile(t, es, order, i);
    }
    forall p | p in t && p != [] ensures Named(p, order, Paths(es)) {
      if p in Ancestors(Names(es)) {
        var k :| 0 <= k < |order| && order[k] == p;
        ExactDirectory(t, es, order, k);
      } else {
        var i :| 0 <= i < |es| && At(es[i]) == p;
        ExactFile(t, es, order, i);
        assert Paths(es)[i] == p;
      }
    }
  }

  class ReviewedParent {
    const faultless: bool // no operation fails or is interrupted for a reason outside the tree
    var stage: Option<Tree>
    var published: Option<Tree>
    var original: Tree

    constructor (faultless: bool, stage: Option<Tree>, published: Option<Tree>, original: Tree)
      ensures this.faultless == faultless
      ensures this.stage == stage && this.published == published && this.original == original
    {
      this.faultless, this.stage, this.published, this.original := faultless, stage, published, original;
    }

    method Works() returns (ok: bool)
      ensures faultless ==> ok
    {
      ok := *;
      ok := ok || faultless;
    }

    /** One directory of the loop in `_stage_new_generation`. */
    method MakeDirectory(p: Path, dirs: seq<Path>) returns (ok: bool, made: seq<Path>, ghost extra: Option<Path>)
      requires stage.Some? && Accounted(stage.value, dirs, [])
      modifies this`stage
      ensures stage.Some? && AccountedBut(stage.value, made, [], extra)
      ensures ok ==> extra == None && made == dirs + [p] && stage.value == old(stage.value)[p := Dir(PUBLIC_DIR)]
      ensures stage.value.Keys <= old(stage.value).Keys + {p}
      ensures faultless ==> extra == None && (ok <==> CanMake(old(stage.value), p))
    {
      made, extra := dirs, None;
      ok := Works();
      if !ok || !CanMake(stage.value, p) {
        return false, made, None;
      }
      AccountedGrowsDir(stage.value, dirs, [], p, PRIVATE_DIR);
      NotListed(stage.value, dirs, [], p);
      stage := Some(stage.value[p := Dir(PRIVATE_DIR)]);
      ok := Works();
      if !ok { // interrupted before the list knew
        return false, made, Some(p);
      }
      made := dirs + [p];
      ok := Works(); // owner, descriptor
      if ok {
        AccountedRewrites(stage.value, made, [], p, Dir(PUBLIC_DIR));
        stage := Some(stage.value[p := Dir(PUBLIC_DIR)]);
      }
    }

    /** One file of the loop in `_stage_new_generation`. */
    method WriteFile(e: Entry, dirs: seq<Path>, files: seq<Path>)
      returns (ok: bool, made: seq<Path>, ghost extra: Option<Path>)
      requires stage.Some? && Accounted(stage.value, dirs, files)
      modifies this`stage
      ensures stage.Some? && AccountedBut(stage.value, dirs, made, extra)
      ensures ok ==> extra == None && made == files + [At(e)]
      ensures ok ==> CanMake(old(stage.value), At(e))
      ensures ok ==> stage.value == old(stage.value)[At(e) := File(e.raw, PUBLIC_FILE)]
      ensures stage.value.Keys <= old(stage.value).Keys + {At(e)}
      ensures faultless ==> extra == None && (ok <==> CanMake(old(stage.value), At(e)))
    {
      var p := At(e);
      extra := None;
      ok := Works();
      if !ok || !CanMake(stage.value, p) {
        return false, files, None;
      }
      AccountedGrowsFile(stage.value, dirs, files, p, File([], PRIVATE_FILE));
      NotListed(stage.value, dirs, files, p);
      stage := Some(stage.value[p := File([], PRIVATE_FILE)]);
      ok := Works();
      if !ok { // interrupted before the list knew
        return false, files, Some(p);
      }
      made := files + [p];
      ok := FillFile(p, e.raw, dirs, made);
    }

    /** A new file from its first byte to its final mode. */
    method FillFile(p: Path, raw: Bytes, dirs: seq<Path>, files: seq<Path>) returns (ok: bool)
      requires stage.Some? && Accounted(stage.value, dirs, files) && Has(stage.value, p, File([], PRIVATE_FILE))
      modifies this`stage
      ensures stage.Some? && Accounted(stage.value, dirs, files)
      ensures ok ==> stage.value == old(stage.value)[p := File(raw, PUBLIC_FILE)]
      ensures stage.value.Keys == old(stage.value).Keys
      ensures faultless ==> ok
    {
      ok := WriteAll(p, raw, dirs, files);
      if ok {
        AccountedRewrites(stage.value, dirs, files, p, File(raw, PUBLIC_FILE));
        stage := Some(stage.value[p := File(raw, PUBLIC_FILE)]);
        ok := Works(); // the sync and the checks
      }
    }

    /** `_write_all`: any number of partial writes. */
    method WriteAll(p: Path, raw: Bytes, dirs: seq<Path>, files: seq<Path>) returns (ok: bool)
      requires stage.Some? && Accounted(stage.value, dirs, files) && Has(stage.value, p, File([], PRIVATE_FILE))
      modifies this`stage
      ensures stage.Some? && Accounted(stage.value, dirs, files)
      ensures ok ==> stage.value == old(stage.value)[p := File(raw, PRIVATE_FILE)]
      ensures p in stage.value && stage.value[p].File?
      ensures stage.value.Keys == old(stage.value).Keys
      ensures faultless ==> ok
    {
      var done := 0;
      assert stage.value == old(stage.value)[p := File(raw[..done], PRIVATE_FILE)];
      while done < |raw|
        invariant 0 <= done <= |raw|
        invariant stage.Some? && stage.value == old(stage.value)[p := File(raw[..done], PRIVATE_FILE)]
        invariant Accounted(stage.value, dirs, files)
      {
        ok := Works();
        var count: nat :| count <= |raw| - done && (ok ==> count > 0);
        if count == 0 {
          return false;
        }
        done := done + count;
        AccountedRewrites(stage.value, dirs, files, p, File(raw[..done], PRIVATE_FILE));
        stage := Some(stage.value[p := File(raw[..done], PRIVATE_FILE)]);
        assert stage.value == old(stage.value)[p := File(raw[..done], PRIVATE_FILE)];
      }
      assert raw[..done] == raw;
      ok := Works();
    }

    // ----- the guarded undo ---------------------------------------------------

    method Unlink(p: Path) returns (ok: bool)
      requires stage.Some?
      modifies this`stage
      ensures ok ==> p in old(stage.value) && old(stage.value)[p].File? && stage == Some(old(stage.value) - {p})
      ensures !ok ==> stage == old(stage)
      ensures faultless && p in old(stage.value) && old(stage.value)[p].File? ==> ok
    {
      ok := Works();
      ok := ok && p in stage.value && stage.value[p].File?;
      if ok {
        stage := Some(stage.value - {p});
      }
    }

    /** `rmdir` refuses anything but an empty directory. */
    method Rmdir(p: Path) returns (ok: bool)
      requires stage.Some?
      modifies this`stage
      ensures ok ==> IsDir(old(stage.value), p) && stage == Some(old(stage.value) - {p})
      ensures !ok ==> stage == old(stage)
      ensures faultless && IsDir(old(stage.value), p) && (forall q <- old(stage.value) :: !(p < q)) ==> ok
    {
      ok := Works();
      ok := ok && IsDir(stage.value, p) && forall q <- stage.value :: !(p < q);
      if ok {
        stage := Some(stage.value - {p});
      }
    }

    /** The staging directory itself, once nothing is left in it. */
    method RemoveStage() returns (ok: bool)
      requires stage.Some?
      modifies this`stage
      ensures ok <==> stage == None
      ensures ok ==> forall p <- old(stage.value) :: p == []
      ensures !ok ==> stage == old(stage)
      ensures faultless && (forall p <- old(stage.value) :: p == []) ==> ok
    {
      ok := Works();
      ok := ok && forall p <- stage.value :: p == [];
      if ok {
        stage := None;
      }
    }

    /** The `finally` of `_stage_new_generation`: exactly what was listed, last first.
        However it ends, what the lists do not know is still there, unchanged. */
    method Undo(dirs: seq<Path>, files: seq<Path>, ghost extra: Option<Path>) returns (ok: bool)
      requires stage.Some? && AccountedBut(stage.value, dirs, files, extra)
      modifies this`stage
      ensures ok <==> stage == None
      ensures ok ==> extra == None
      ensures ok ==> forall p <- old(stage.value) :: p == [] || p in dirs || p in files
      ensures stage.Some? ==> Spares(old(stage.value), stage.value, dirs, files)
      ensures faultless && extra == None ==> ok
    {
      ok := UndoFiles(dirs, files, extra);
      if ok {
        ghost var t1 := stage.value;
        ok := UndoDirectories(dirs, extra);
        SparesTwice(old(stage.value), t1, stage.value, dirs, files);
      }
      if ok {
        if extra == None {
          forall p | p in stage.value && p != [] ensures false {
            UnlistedIsAbsent(stage.value, [], [], p);
          }
        }
        ok := RemoveStage();
      }
    }

    method UndoFiles(dirs: seq<Path>, files: seq<Path>, ghost extra: Option<Path>) returns (ok: bool)
      requires stage.Some? && AccountedBut(stage.value, dirs, files, extra)
      modifies this`stage
      ensures stage.Some? && (ok ==> AccountedBut(stage.value, dirs, [], extra))
      ensures Spares(old(stage.value), stage.value, [], files)
      ensures faultless && extra == None ==> ok
    {
      ok := true;
      var rest := files;
      while rest != []
        invariant rest <= files && stage.Some? && AccountedBut(stage.value, dirs, rest, extra)
        invariant Spares(old(stage.value), stage.value, [], files)
        decreases |rest|
      {
        ok := UndoFile(dirs, rest, extra);
        if !ok { return; }
        rest := rest[..|rest| - 1];
      }
    }

    method UndoDirectories(dirs: seq<Path>, ghost extra: Option<Path>) returns (ok: bool)
      requires stage.Some? && AccountedBut(stage.value, dirs, [], extra)
      modifies this`stage
      ensures stage.Some? && (ok ==> AccountedBut(stage.value, [], [], extra))
      ensures Spares(old(stage.value), stage.value, dirs, [])
      ensures faultless && extra == None ==> ok
    {
      ok := true;
      var rest := dirs;
      while rest != []
        invariant rest <= dirs && stage.Some? && AccountedBut(stage.value, rest, [], extra)
        invariant Spares(old(stage.value), stage.value, dirs, [])
        decreases |rest|
      {
        ok := UndoDirectory(rest, extra);
        if !ok { return; }
        rest := rest[..|rest| - 1];
      }
    }

    method UndoFile(dirs: seq<Path>, files: seq<Path>, ghost extra: Option<Path>) returns (ok: bool)
      requires files != [] && stage.Some? && AccountedBut(stage.value, dirs, files, extra)
      modifies this`stage
      ensures stage.Some? && (ok ==> AccountedBut(stage.value, dirs, files[..|files| - 1], extra))
      ensures stage.value == old(stage.value) || stage.value == old(stage.value) - {files[|files| - 1]}
      ensures faultless && extra == None ==> ok
    {
      if extra == None {
        AccountedShrinks(stage.value, dirs, files);
      }
      ok := Unlink(files[|files| - 1]);
    }

    method UndoDirectory(dirs: seq<Path>, ghost extra: Option<Path>) returns (ok: bool)
      requires dirs != [] && stage.Some? && AccountedBut(stage.value, dirs, [], extra)
      modifies this`stage
      ensures stage.Some? && (ok ==> AccountedBut(stage.value, dirs[..|dirs| - 1], [], extra))
      ensures stage.value == old(stage.value) || stage.value == old(stage.value) - {dirs[|dirs| - 1]}
      ensures faultless && extra == None ==> ok
    {
      if extra == None {
        LastIsEmpty(stage.value, dirs);
        assert DirAt(stage.value, dirs, |dirs| - 1);
      }
      ok := Rmdir(dirs[|dirs| - 1]);
    }

    // ----- staging ------------------------------------------------------------

    method MakeDirectories(es: seq<Entry>, order: seq<Path>) returns (ok: bool, made: seq<Path>, ghost extra: Option<Path>)
      requires stage.Some? && Laid(stage.value, es, order, 0, 0) && IsOrder(order, es) && OwnOnly(stage.value, es)
      modifies this`stage
      ensures stage.Some? && AccountedBut(stage.value, made, [], extra)
      ensures OwnOnly(stage.value, es)
      ensures ok ==> extra == None && Laid(stage.value, es, order, |order|, 0)
      ensures faultless ==> extra == None && (Compatible(es) ==> ok)
    {
      ok, made, extra := true, [], None;
      LaidAccounts(stage.value, es, order, 0, 0);
      var k := 0;
      while k < |order|
        invariant 0 <= k <= |order| && stage.Some? && Laid(stage.value, es, order, k, 0)
        invariant AccountedBut(stage.value, made, [], None) && OwnOnly(stage.value, es)
        invariant ok && extra == None
      {
        ok, made, extra := LayDirectory(es, order, k);
        if !ok { return; }
        k := k + 1;
      }
    }

    method LayDirectory(es: seq<Entry>, order: seq<Path>, k: nat)
      returns (ok: bool, made: seq<Path>, ghost extra: Option<Path>)
      requires stage.Some? && k < |order| && Laid(stage.value, es, order, k, 0) && IsOrder(order, es) && OwnOnly(stage.value, es)
      modifies this`stage
      ensures stage.Some? && AccountedBut(stage.value, made, [], extra)
      ensures OwnOnly(stage.value, es)
      ensures ok ==> extra == None && Laid(stage.value, es, order, k + 1, 0)
      ensures faultless ==> extra == None && (Compatible(es) ==> ok)
    {
      ghost var t := stage.value;
      LaidAccounts(t, es, order, k, 0);
      if Compatible(es) {
        CanMakeDirectory(t, es, order, k);
      }
      ok, made, extra := MakeDirectory(order[k], order[..k]);
      if ok {
        LaidGrowsDirectory(t, stage.value, es, order, k);
      }
    }

    method WriteFiles(es: seq<Entry>, order: seq<Path>) returns (ok: bool, made: seq<Path>, ghost extra: Option<Path>)
      requires stage.Some? && Laid(stage.value, es, order, |order|, 0) && IsOrder(order, es)
      requires Canonical(Names(es)) && OwnOnly(stage.value, es)
      modifies this`stage
      ensures stage.Some? && AccountedBut(stage.value, order, made, extra)
      ensures OwnOnly(stage.value, es)
      ensures ok ==> extra == None && Laid(stage.value, es, order, |order|, |es|)
      ensures faultless ==> extra == None && (Compatible(es) ==> ok)
    {
      ok, made, extra := true, [], None;
      LaidAccounts(stage.value, es, order, |order|, 0);
      var m := 0;
      while m < |es|
        invariant 0 <= m <= |es| && stage.Some? && Laid(stage.value, es, order, |order|, m)
        invariant AccountedBut(stage.value, order, made, None) && OwnOnly(stage.value, es)
        invariant ok && extra == None
      {
        ok, made, extra := LayFile(es, order, m);
        if !ok { return; }
        m := m + 1;
      }
    }

    method LayFile(es: seq<Entry>, order: seq<Path>, m: nat)
      returns (ok: bool, made: seq<Path>, ghost extra: Option<Path>)
      requires stage.Some? && m < |es| && Laid(stage.value, es, order, |order|, m) && IsOrder(order, es)
      requires Canonical(Names(es)) && OwnOnly(stage.value, es)
      modifies this`stage
      ensures stage.Some? && AccountedBut(stage.value, order, made, extra)
      ensures OwnOnly(stage.value, es)
      ensures ok ==> extra == None && Laid(stage.value, es, order, |order|, m + 1)
      ensures faultless ==> extra == None && (Compatible(es) ==> ok)
    {
      ghost var t := stage.value;
      LaidAccounts(t, es, order, |order|, m);
      if Compatible(es) {
        CanMakeFile(t, es, order, m);
      }
      ok, made, extra := WriteFile(es[m], order, Paths(es)[..m]);
      if ok {
        LaidGrowsFile(t, stage.value, es, order, m);
      }
    }

    /** The audit of the staged tree. */
    method Verify(es: seq<Entry>) returns (ok: bool)
      requires stage.Some? && IsTree(stage.value) && Canonical(Names(es)) && Compatible(es)
      ensures ok ==> Exact(stage.value, es) && Small(es)
      ensures faultless ==> (ok <==> Exact(stage.value, es) && Small(es))
    {
      ok := VerifyApplication(stage.value, es, faultless);
    }

    /** The guarded region of `_stage_new_generation`. */
    method Fill(es: seq<Entry>) returns (ok: bool, dirs: seq<Path>, files: seq<Path>, ghost extra: Option<Path>)
      requires stage == Some(map[[] := Dir(PRIVATE_DIR)]) && Canonical(Names(es))
      modifies this`stage
      ensures stage.Some?
      ensures ok ==> Exact(stage.value, es) && Has(stage.value, [], Dir(PUBLIC_DIR)) && Stageable(es)
      ensures !ok ==> AccountedBut(stage.value, dirs, files, extra) && OwnOnly(stage.value, es)
      ensures faultless ==> extra == None && (ok <==> Stageable(es))
    {
      files := [];
      AncestorsNamedApart(Names(es));
      var order := ByDepth(Ancestors(Names(es)));
      assert order[..0] == [] && Paths(es)[..0] == [];
      ok, dirs, extra := MakeDirectories(es, order);
      if !ok { return; }
      dirs := order;
      ok, files, extra := WriteFiles(es, order);
      if !ok { return; }
      LaidIsExact(stage.value, es, order);
      LaidAccounts(stage.value, es, order, |order|, |es|);
      files := Paths(es);
      ExactIsCompatible(stage.value, es, dirs, files);
      ok := Close(es, dirs, files);
    }

    /** The audit, the final mode and sync of the guarded region. */
    method Close(es: seq<Entry>, dirs: seq<Path>, files: seq<Path>) returns (ok: bool)
      requires stage.Some? && Accounted(stage.value, dirs, files) && Exact(stage.value, es)
      requires Canonical(Names(es)) && Compatible(es)
      modifies this`stage
      ensures stage.Some? && Accounted(stage.value, dirs, files)
      ensures stage.value.Keys == old(stage.value).Keys
      ensures ok ==> Exact(stage.value, es) && Has(stage.value, [], Dir(PUBLIC_DIR)) && Small(es)
      ensures faultless ==> (ok <==> Small(es))
    {
      ExactIsTree(stage.value, es);
      ok := Verify(es);
      if !ok { return; }
      AccountedRewrites(stage.value, dirs, files, [], Dir(PUBLIC_DIR));
      RootModeIsFree(stage.value, es, Dir(PUBLIC_DIR));
      stage := Some(stage.value[[] := Dir(PUBLIC_DIR)]);
      ok := Works(); // the final sync
    }

    /** `_stage_new_generation`: a fresh exact generation, or nothing; what an
        interrupt or a failing undo leaves is left for inspection. */
    method StageNewGeneration(es: seq<Entry>) returns (r: Result)
      modifies this`stage
      ensures r == Staged ==> old(stage) == None && stage.Some? && Exact(stage.value, es) && Selected(es)
      ensures r == Staged ==> Has(stage.value, [], Dir(PUBLIC_DIR)) && Generation(stage.value, es)
      ensures r == Refused ==> stage == old(stage)
      ensures r == Undone ==> stage == None == old(stage)
      ensures r == Left ==> stage.Some? && old(stage) == None && OwnOnly(stage.value, es) && !faultless
      ensures r == Staged ==> Stageable(es)
      ensures r != Published
      ensures faultless ==>
        r == if !Selected(es) || old(stage).Some? then Refused else if Stageable(es) then Staged else Undone
    {
      var ok := Works();
      if !Selected(es) || stage.Some? || !ok {
        return Refused;
      }
      stage := Some(map[[] := Dir(PRIVATE_DIR)]);
      ok := Works();
      if !ok { // before the guarded region
        return Left;
      }
      var dirs, files;
      ghost var extra;
      ok, dirs, files, extra := Fill(es);
      if ok {
        ExactIsGeneration(stage.value, es);
        return Staged;
      }
      ok := Undo(dirs, files, extra);
      r := if ok then Undone else Left;
    }

    // ----- publication --------------------------------------------------------

    /** `_remove_verified_stage`: a tree that is not exactly the snapshot is not touched. */
    method RemoveVerifiedStage(es: seq<Entry>) returns (ok: bool)
      requires stage.Some? && IsTree(stage.value) && Canonical(Names(es)) && Stageable(es)
      modifies this`stage
      ensures ok ==> stage == None
      ensures !Exact(old(stage.value), es) ==> !ok && stage == old(stage)
      ensures stage.Some? ==> PartOf(old(stage.value), stage.value)
      ensures faultless ==> (ok <==> Exact(old(stage.value), es))
    {
      ok := Verify(es);
      if !ok { return; }
      AncestorsNamedApart(Names(es));
      var order := ByDepth(Ancestors(Names(es)));
      ExactAccounts(stage.value, es, order);
      ok := Undo(order, Paths(es), None);
      if ok {
        ok := Works(); // the parent's sync
      }
    }

    /** `_publish_isolated_generation` from the assembled entries on, given how the
        rename ends. The published name appears whole or not at all. */
    method Publish(es: seq<Entry>, rename: Outcome) returns (r: Result)
      modifies this`stage, this`published
      ensures published == old(published)
        || (old(published) == None && stage == None && published.Some? && Exact(published.value, es) && Selected(es))
      ensures published == old(published) || Generation(published.value, es)
      ensures r == Published ==> published != old(published)
      ensures r == Refused ==> stage == old(stage) && published == old(published)
      ensures r == Undone ==> stage == None == old(stage) && published == old(published)
      ensures r != Staged && (r == Left && faultless ==> rename == Control)
      ensures faultless && rename != Control ==>
        r == if Vacant(old(stage), old(published)) && Selected(es) && Stageable(es)
             then (if rename == Returned then Published else Undone)
             else (if Vacant(old(stage), old(published)) && Selected(es) then Undone else Refused)
    {
      if stage.Some? || published.Some? {
        return Refused;
      }
      r := StageNewGeneration(es);
      if r != Staged {
        return;
      }
      if rename == Control {
        var done: bool := *;
        if done {
          published, stage := stage, None;
        }
        return Left;
      }
      if rename == Failed {
        ExactIsTree(stage.value, es);
        var ok := RemoveVerifiedStage(es);
        return if ok then Undone else Left;
      }
      published, stage := stage, None;
      var synced := Works();
      r := if synced then Published else Left;
    }
  }

  predicate Vacant(stage: Option<Tree>, published: Option<Tree>) {
    stage == None && published == None
  }
}
