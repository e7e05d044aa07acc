/** A directory tree, what makes it exactly the selected files, and the recursive
    audit that decides it (`_verify_application` in
    `deployment/dev_host_provisioning_mechanics.py`). */
module SourceAudit {
  import opened SourceNames

  type Bytes = seq<nat>

  const GENERATION: nat := 70
  const PRIVATE_DIR: nat := 0x1C0 // 0700
  const PUBLIC_DIR: nat := 0x1ED // 0755
  const PRIVATE_FILE: nat := 0x180 // 0600
  const PUBLIC_FILE: nat := 0x1A4 // 0644

  datatype Entry = Entry(name: string, raw: Bytes)

  datatype Node = Dir(mode: nat) | File(raw: Bytes, mode: nat)

  /** A directory tree by path; the empty path is the staging directory itself. */
  type Tree = map<Path, Node>

  function Names(es: seq<Entry>): (r: seq<string>)
    ensures |r| == |es| && forall i | 0 <= i < |es| :: r[i] == es[i].name
  {
    seq(|es|, i requires 0 <= i < |es| => es[i].name)
  }

  predicate Selected(es: seq<Entry>) {
    |es| == GENERATION && Canonical(Names(es))
  }

  function At(e: Entry): Path {
    Parts(e.name)
  }

  predicate Has(t: Tree, p: Path, node: Node) {
    p in t && t[p] == node
  }

  /** The audit of `_verify_application`: these files, the directories above them, and nothing else. */
  predicate Exact(t: Tree, es: seq<Entry>) {
    && (forall i | 0 <= i < |es| :: Has(t, At(es[i]), File(es[i].raw, PUBLIC_FILE)))
    && (forall d <- Ancestors(Names(es)) :: Has(t, d, Dir(PUBLIC_DIR)))
    && (forall p <- t :: p == [] || p in Ancestors(Names(es)) || exists i | 0 <= i < |es| :: At(es[i]) == p)
  }

  predicate Ordinary(part: string) {
    part != "" && part != "." && part != ".."
  }

  /** Entries that can be laid out side by side. */
  predicate Compatible(es: seq<Entry>) {
    && (forall i, j | 0 <= i < |es| && 0 <= j < |es| :: Apart(es[i], es[j]))
    && (forall i | 0 <= i < |es| :: Nameable(es[i]))
  }

  /** The first is no directory above the second. */
  predicate Apart(a: Entry, b: Entry) {
    !(At(a) < At(b))
  }

  predicate Nameable(e: Entry) {
    forall k | 0 <= k < |At(e)| :: Ordinary(At(e)[k])
  }

  predicate IsDir(t: Tree, p: Path) {
    p in t && t[p].Dir?
  }

  lemma PrefixIsTake(q: Path, p: Path)
    ensures q < p ==> |q| < |p| && p[..|q|] == q
  {
  }

  lemma AncestorOf(es: seq<Entry>, d: Path) returns (i: nat, n: nat)
    requires d in Ancestors(Names(es))
    ensures i < |es| && 1 <= n < |At(es[i])| && d == At(es[i])[..n]
  {
    i, n :| i < |Names(es)| && 1 <= n < |Parts(Names(es)[i])| && d == Parts(Names(es)[i])[..n];
  }

  lemma DistinctPaths(es: seq<Entry>, i: nat, j: nat)
    requires Canonical(Names(es)) && i < j < |es|
    ensures At(es[i]) != At(es[j])
  {
    PartsInjective(es[i].name, es[j].name);
    LessTotal(es[i].name, es[i].name);
  }

  // ----- the walk -------------------------------------------------------------

  const MAX_BLOB: nat := 1048576

  /** What the audit can read back. */
  predicate Small(es: seq<Entry>) {
    forall i | 0 <= i < |es| :: |es[i].raw| <= MAX_BLOB
  }

  /** What every directory tree is: a directory above everything in it. */
  predicate IsTree(t: Tree) {
    IsDir(t, []) && forall p <- t | p != [] :: IsDir(t, p[..|p| - 1])
  }

  function Children(t: Tree, p: Path): set<Path> {
    set q | q in t && |q| == |p| + 1 && q[..|p|] == p
  }

  function Below(t: Tree, p: Path): set<Path> {
    set q | q in t && |q| > |p| && q[..|p|] == p
  }

  predicate DirectoryFits(t: Tree, es: seq<Entry>, p: Path) {
    p in Ancestors(Names(es)) && Has(t, p, Dir(PUBLIC_DIR))
  }

  predicate FileFits(t: Tree, es: seq<Entry>, p: Path) {
    && p !in Ancestors(Names(es))
    && exists i | 0 <= i < |es| :: At(es[i]) == p && Has(t, p, File(es[i].raw, PUBLIC_FILE)) && |es[i].raw| <= MAX_BLOB
  }

  predicate Fits(t: Tree, es: seq<Entry>, p: Path) {
    DirectoryFits(t, es, p) || FileFits(t, es, p)
  }

  lemma {:induction false} PrefixInTree(t: Tree, q: Path, n: nat)
    requires IsTree(t) && q in t && n <= |q|
    ensures q[..n] in t
    decreases |q|
  {
    if n < |q| {
      PrefixInTree(t, q[..|q| - 1], n);
      assert q[..|q| - 1][..n] == q[..n];
    } else {
      assert q[..n] == q;
    }
  }

  /** Below a directory are its children and what is below them. */
  lemma BelowSplits(t: Tree, p: Path, q: Path)
    requires IsTree(t) && q in Below(t, p)
    ensures q[..|p| + 1] in Children(t, p)
    ensures q == q[..|p| + 1] || q in Below(t, q[..|p| + 1])
  {
    PrefixInTree(t, q, |p| + 1);
    assert q[..|p| + 1][..|p|] == q[..|p|];
  }

  lemma ChildIsBelow(t: Tree, p: Path, c: Path)
    requires c in Children(t, p)
    ensures c in Below(t, p) && Below(t, c) < Below(t, p) && |Below(t, c)| < |Below(t, p)|
  {
    forall q | q in Below(t, c) ensures q in Below(t, p) {
      assert q[..|c|][..|p|] == q[..|p|];
    }
    assert c !in Below(t, c);
    SmallerSet(Below(t, c), Below(t, p), c);
  }

  lemma SmallerSet(a: set<Path>, b: set<Path>, x: Path)
    requires a <= b && x in b && x !in a
    ensures |a| < |b|
  {
    assert b == (b - a) + a && x in b - a;
  }

  /** What the walk has found below some of the children of `p`. */
  predicate Walked(t: Tree, es: seq<Entry>, p: Path, rest: set<Path>, files: set<Path>, dirs: set<Path>) {
    && (forall q <- files :: FileFits(t, es, q)) && (forall q <- dirs :: DirectoryFits(t, es, q))
    && (forall q <- Below(t, p) :: q[..|p| + 1] in rest || q in files || q in dirs)
    && (forall q <- files + dirs :: q in Below(t, p))
  }

  lemma WalkedGrows(t: Tree, es: seq<Entry>, p: Path, rest: set<Path>, files: set<Path>, dirs: set<Path>, c: Path,
                    moreFiles: set<Path>, moreDirs: set<Path>)
    requires IsTree(t) && c in rest && rest <= Children(t, p) && Walked(t, es, p, rest, files, dirs)
    requires WalkedFrom(t, es, c, moreFiles, moreDirs)
    ensures Walked(t, es, p, rest - {c}, files + moreFiles, dirs + moreDirs)
  {
    ChildIsBelow(t, p, c);
    forall q <- Below(t, p) ensures q[..|p| + 1] in rest - {c} || q in files + moreFiles || q in dirs + moreDirs {
      if q[..|p| + 1] == c {
        BelowSplits(t, p, q);
      }
    }
  }

  lemma NothingBelowFile(t: Tree, c: Path)
    requires IsTree(t) && c in t && t[c].File?
    ensures Below(t, c) == {}
  {
    forall q | q in t && |q| > |c| ensures q[..|c|] != c {
      PrefixInTree(t, q, |c| + 1);
      assert q[..|c| + 1][..|c|] == q[..|c|];
    }
  }

  /** In an exact tree of small files everything fits. */
  lemma ExactFits(t: Tree, es: seq<Entry>, q: Path)
    requires Exact(t, es) && Small(es) && q in Below(t, [])
    ensures Fits(t, es, q)
  {
    if q !in Ancestors(Names(es)) {
      var i :| 0 <= i < |es| && At(es[i]) == q;
      assert Has(t, At(es[i]), File(es[i].raw, PUBLIC_FILE));
    }
  }

  /** What the walk of an exact tree finds is all that is expected. */
  lemma ExactIsFound(t: Tree, es: seq<Entry>, files: set<Path>, dirs: set<Path>)
    requires Exact(t, es) && Compatible(es) && Walked(t, es, [], {}, files, dirs)
    ensures dirs == Ancestors(Names(es)) && files == Expected(es)
  {
    forall d <- Ancestors(Names(es)) ensures d in dirs {
      assert Has(t, d, Dir(PUBLIC_DIR));
      assert d in Below(t, []);
      assert d in files ==> FileFits(t, es, d);
    }
    forall p <- Expected(es) ensures p in files {
      var i :| 0 <= i < |es| && At(es[i]) == p;
      assert Has(t, p, File(es[i].raw, PUBLIC_FILE));
      assert p in Below(t, []);
      assert p in dirs ==> DirectoryFits(t, es, p);
    }
    forall p <- files ensures p in Expected(es) {
      assert FileFits(t, es, p);
    }
    forall d <- dirs ensures d in Ancestors(Names(es)) {
      assert DirectoryFits(t, es, d);
    }
  }

  function Expected(es: seq<Entry>): set<Path> {
    set i | 0 <= i < |es| :: At(es[i])
  }

  /** A walk that found exactly what is expected has seen an exact tree. */
  lemma FoundIsExact(t: Tree, es: seq<Entry>, files: set<Path>, dirs: set<Path>)
    requires Canonical(Names(es)) && Walked(t, es, [], {}, files, dirs)
    requires dirs == Ancestors(Names(es)) && files == Expected(es)
    ensures Exact(t, es) && Small(es)
  {
    forall i | 0 <= i < |es| ensures Has(t, At(es[i]), File(es[i].raw, PUBLIC_FILE)) && |es[i].raw| <= MAX_BLOB {
      assert At(es[i]) in Expected(es);
      OwnEntry(t, es, i);
    }
    forall d <- Ancestors(Names(es)) ensures Has(t, d, Dir(PUBLIC_DIR)) {
      assert DirectoryFits(t, es, d);
    }
    forall p <- t ensures p == [] || p in Ancestors(Names(es)) || exists i | 0 <= i < |es| :: At(es[i]) == p {
      if p != [] {
        assert p in Below(t, []);
      }
    }
  }

  /** The entry a file fits is the one of its name. */
  lemma OwnEntry(t: Tree, es: seq<Entry>, i: nat)
    requires i < |es| && Canonical(Names(es)) && FileFits(t, es, At(es[i]))
    ensures Has(t, At(es[i]), File(es[i].raw, PUBLIC_FILE)) && |es[i].raw| <= MAX_BLOB
  {
    var k :| 0 <= k < |es| && At(es[k]) == At(es[i]) && Has(t, At(es[i]), File(es[k].raw, PUBLIC_FILE)) && |es[k].raw| <= MAX_BLOB;
    if k < i {
      DistinctPaths(es, k, i);
    } else if i < k {
      DistinctPaths(es, i, k);
    }
  }

  lemma ExactIsTree(t: Tree, es: seq<Entry>)
    requires Exact(t, es) && IsDir(t, [])
    ensures IsTree(t)
  {
    forall p <- t | p != [] ensures IsDir(t, p[..|p| - 1]) {
      var q := p[..|p| - 1];
      if q != [] {
        if p in Ancestors(Names(es)) {
          AncestorsClosed(Names(es), p, |p| - 1);
        } else {
          var i :| 0 <= i < |es| && At(es[i]) == p;
          assert Parts(Names(es)[i])[..|p| - 1] in Ancestors(Names(es));
        }
        assert Has(t, q, Dir(PUBLIC_DIR));
      }
    }
  }


  // ----- the audit ------------------------------------------------------------

  predicate AllFit(t: Tree, es: seq<Entry>, p: Path) {
    forall q <- Below(t, p) :: Fits(t, es, q)
  }

  /** What a walk of everything below `c`, and `c` itself, has found. */
  predicate WalkedFrom(t: Tree, es: seq<Entry>, c: Path, files: set<Path>, dirs: set<Path>) {
    && (c in files || c in dirs)
    && (forall q <- files :: FileFits(t, es, q) && (q == c || q in Below(t, c)))
    && (forall q <- dirs :: DirectoryFits(t, es, q) && (q == c || q in Below(t, c)))
    && (forall q <- Below(t, c) :: q in files || q in dirs)
  }

  /** An operation that fails for no reason in the tree. */
  method Works(faultless: bool) returns (ok: bool)
    ensures faultless ==> ok
  {
    ok := *;
    ok := ok || faultless;
  }

  /** `scan`: every name of a directory is an expected directory, walked in turn,
      or an expected file, or it ends the audit. */
  method ScanDirectory(t: Tree, es: seq<Entry>, p: Path, faultless: bool) returns (ok: bool, files: set<Path>, dirs: set<Path>)
    requires IsTree(t)
    ensures ok ==> Walked(t, es, p, {}, files, dirs)
    ensures faultless && !ok ==> !AllFit(t, es, p)
    decreases |Below(t, p)|, 0
  {
    files, dirs := {}, {};
    var rest := Children(t, p);
    forall q <- Below(t, p) ensures q[..|p| + 1] in rest {
      BelowSplits(t, p, q);
    }
    while rest != {}
      invariant rest <= Children(t, p) && Walked(t, es, p, rest, files, dirs)
      decreases |rest|
    {
      var c :| c in rest;
      ChildIsBelow(t, p, c);
      var moreFiles, moreDirs;
      ok, moreFiles, moreDirs := ScanName(t, es, c, faultless);
      if !ok {
        return;
      }
      WalkedGrows(t, es, p, rest, files, dirs, c, moreFiles, moreDirs);
      files, dirs, rest := files + moreFiles, dirs + moreDirs, rest - {c};
    }
    ok := true;
  }

  /** One name of `scan`. */
  method ScanName(t: Tree, es: seq<Entry>, c: Path, faultless: bool) returns (ok: bool, files: set<Path>, dirs: set<Path>)
    requires IsTree(t) && c in t
    ensures ok ==> WalkedFrom(t, es, c, files, dirs)
    ensures faultless && !ok ==> !Fits(t, es, c) || !AllFit(t, es, c)
    decreases |Below(t, c)|, 1
  {
    files, dirs := {}, {};
    ok := Works(faultless);
    if !ok {
      return;
    }
    if c in Ancestors(Names(es)) {
      ok := t[c] == Dir(PUBLIC_DIR);
      if ok {
        ok, files, dirs := ScanDirectory(t, es, c, faultless);
        dirs := dirs + {c};
      }
    } else {
      ok := FileFits(t, es, c);
      if ok {
        files := {c};
        NothingBelowFile(t, c);
      }
    }
  }

  /** `_verify_application`: the walk, and then whether all was found that is expected.
      Without faults it passes exactly the exact trees of files it can read. */
  method VerifyApplication(t: Tree, es: seq<Entry>, faultless: bool) returns (ok: bool)
    requires IsTree(t) && Canonical(Names(es)) && Compatible(es)
    ensures ok ==> Exact(t, es) && Small(es)
    ensures faultless ==> (ok <==> Exact(t, es) && Small(es))
  {
    var files, dirs;
    ok, files, dirs := ScanDirectory(t, es, [], faultless);
    if !ok {
      UnfitIsInexact(t, es);
      return;
    }
    ok := dirs == Ancestors(Names(es)) && files == Expected(es);
    if ok {
      FoundIsExact(t, es, files, dirs);
    } else if Exact(t, es) {
      ExactIsFound(t, es, files, dirs);
    }
  }

  lemma UnfitIsInexact(t: Tree, es: seq<Entry>)
    ensures !AllFit(t, es, []) ==> !(Exact(t, es) && Small(es))
  {
    if Exact(t, es) && Small(es) {
      forall q <- Below(t, []) ensures Fits(t, es, q) {
        ExactFits(t, es, q);
      }
    }
  }
}
