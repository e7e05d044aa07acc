/** Repository paths as strings and as components, their order, and the
    directories a set of files needs. */
module SourceNames {
  type Path = seq<string>

  /** `name.split("/")`. */
  function Parts(name: string): (p: Path)
    ensures p != []
  {
    if name == [] then [[]]
    else if name[0] == '/' then [[]] + Parts(name[1..])
    else var rest := Parts(name[1..]); [[name[0]] + rest[0]] + rest[1..]
  }

  function Joined(p: Path): string {
    if p == [] then [] else if |p| == 1 then p[0] else p[0] + "/" + Joined(p[1..])
  }

  /** Splitting loses nothing, so different names are different paths. */
  lemma {:induction false} JoinedParts(name: string)
    ensures Joined(Parts(name)) == name
  {
    if name != [] {
      var rest := Parts(name[1..]);
      JoinedParts(name[1..]);
      if name[0] == '/' {
        assert ([[]] + rest)[1..] == rest;
        assert [] + "/" + Joined(rest) == name;
      } else {
        var p := [[name[0]] + rest[0]] + rest[1..];
        assert p[1..] == rest[1..];
        if |rest| > 1 {
          assert [name[0]] + rest[0] + "/" + Joined(rest[1..]) == [name[0]] + Joined(rest);
        }
      }
    }
  }

  lemma PartsInjective(a: string, b: string)
    ensures Parts(a) == Parts(b) ==> a == b
  {
    JoinedParts(a);
    JoinedParts(b);
  }

  predicate SlashFree(p: Path) {
    forall i | 0 <= i < |p| :: '/' !in p[i]
  }

  lemma {:induction false} PartsSlashFree(name: string)
    ensures SlashFree(Parts(name))
  {
    if name != [] {
      PartsSlashFree(name[1..]);
    }
  }

  lemma {:induction false} PartsOfFirst(c: string, rest: string)
    requires '/' !in c
    ensures Parts(c) == [c] && Parts(c + "/" + rest) == [c] + Parts(rest)
  {
    if c == [] {
      assert c + "/" + rest == "/" + rest && ("/" + rest)[1..] == rest;
    } else {
      assert c[0] in c && forall x <- c[1..] :: x in c;
      PartsOfFirst(c[1..], rest);
      assert (c + "/" + rest)[1..] == c[1..] + "/" + rest;
      assert [c[0]] + c[1..] == c;
    }
  }

  /** Joining loses nothing either, where no part holds a slash. */
  lemma {:induction false} PartsJoined(p: Path)
    requires p != [] && SlashFree(p)
    ensures Parts(Joined(p)) == p
  {
    if |p| == 1 {
      PartsOfFirst(p[0], []);
    } else {
      PartsJoined(p[1..]);
      PartsOfFirst(p[0], Joined(p[1..]));
      assert [p[0]] + p[1..] == p;
    }
  }

  /** Python's order of strings. */
  predicate Less(a: string, b: string) {
    b != [] && (a == [] || a[0] < b[0] || (a[0] == b[0] && Less(a[1..], b[1..])))
  }

  lemma {:induction false} LessTotal(a: string, b: string)
    ensures !(Less(a, b) && Less(b, a))
    ensures a != b ==> Less(a, b) || Less(b, a)
    ensures !Less(a, a)
  {
    if a != [] && b != [] {
      LessTotal(a[1..], b[1..]);
      LessTotal(a[1..], a[1..]);
      if a[0] == b[0] && a[1..] == b[1..] {
        assert a == [a[0]] + a[1..] && b == [b[0]] + b[1..];
      }
    } else if a != [] {
      LessTotal(a[1..], a[1..]);
    }
  }

  lemma {:induction false} LessTransitive(a: string, b: string, c: string)
    requires Less(a, b) && Less(b, c)
    ensures Less(a, c)
  {
    if a != [] && a[0] == b[0] && b[0] == c[0] {
      LessTransitive(a[1..], b[1..], c[1..]);
    }
  }

  /** The two agree up to `k`, where `a` ends or has the smaller character. */
  predicate LessAt(a: string, b: string, k: nat) {
    k <= |a| && k < |b| && a[..k] == b[..k] && (k == |a| || a[k] < b[k])
  }

  lemma {:induction false} LessMeans(a: string, b: string) returns (k: nat)
    requires Less(a, b)
    ensures LessAt(a, b, k)
  {
    k := 0;
    if a != [] && a[0] == b[0] {
      k := LessMeans(a[1..], b[1..]);
      k := k + 1;
      assert a[..k] == [a[0]] + a[1..][..k - 1] && b[..k] == [b[0]] + b[1..][..k - 1];
    }
  }

  lemma {:induction false} LessAtIsLess(a: string, b: string, k: nat)
    requires LessAt(a, b, k)
    ensures Less(a, b)
  {
    if k > 0 {
      assert a[0] == a[..k][0] == b[..k][0] == b[0];
      assert a[1..][..k - 1] == a[..k][1..] && b[1..][..k - 1] == b[..k][1..];
      LessAtIsLess(a[1..], b[1..], k - 1);
    }
  }

  /** A proper prefix comes first, and otherwise the first differing character decides. */
  lemma LessIff(a: string, b: string)
    ensures Less(a, b) <==> exists k: nat :: LessAt(a, b, k)
  {
    if Less(a, b) {
      var k := LessMeans(a, b);
    }
    if k: nat :| LessAt(a, b, k) {
      LessAtIsLess(a, b, k);
    }
  }

  /** `names == tuple(sorted(set(names)))`. */
  predicate Canonical(names: seq<string>) {
    forall i, j | 0 <= i < j < |names| :: Less(names[i], names[j])
  }

  /** Every proper, non-empty prefix of a file's path. */
  function Ancestors(names: seq<string>): set<Path> {
    set i, n | 0 <= i < |names| && 1 <= n < |Parts(names[i])| :: Parts(names[i])[..n]
  }

  lemma AncestorsClosed(names: seq<string>, d: Path, n: nat)
    requires d in Ancestors(names) && 1 <= n < |d|
    ensures d[..n] in Ancestors(names)
  {
    var i, m :| 0 <= i < |names| && 1 <= m < |Parts(names[i])| && d == Parts(names[i])[..m];
    assert d[..n] == Parts(names[i])[..n];
  }

  lemma AncestorsNamedApart(names: seq<string>)
    ensures NamedApart(Ancestors(names))
  {
    forall d <- Ancestors(names) ensures d != [] && SlashFree(d) {
      var i, n :| 0 <= i < |names| && 1 <= n < |Parts(names[i])| && d == Parts(names[i])[..n];
      PartsSlashFree(names[i]);
    }
    forall a <- Ancestors(names), b <- Ancestors(names) | Joined(a) == Joined(b) ensures a == b {
      PartsJoined(a);
      PartsJoined(b);
    }
  }

  // ----- sorting -------------------------------------------------------------

  /** The sort key of directories: how deep, and then by name. */
  predicate Sooner(a: Path, b: Path) {
    |a| < |b| || (|a| == |b| && Less(Joined(a), Joined(b)))
  }

  /** Different paths have different names. */
  predicate NamedApart(dirs: set<Path>) {
    forall a <- dirs, b <- dirs :: Joined(a) == Joined(b) ==> a == b
  }

  lemma {:induction false} SoonestExists(dirs: set<Path>) returns (d: Path)
    requires dirs != {} && NamedApart(dirs)
    ensures d in dirs && forall e <- dirs | e != d :: Sooner(d, e)
    decreases |dirs|
  {
    d :| d in dirs;
    var rest := dirs - {d};
    if rest != {} {
      var e := SoonestExists(rest);
      LessTotal(Joined(d), Joined(e));
      if Sooner(e, d) {
        d := e;
      } else {
        forall f | f in rest && f != e ensures Sooner(d, f) {
          if |d| == |e| == |f| {
            LessTransitive(Joined(d), Joined(e), Joined(f));
          }
        }
      }
    }
  }

  lemma {:induction false} LeastExists(names: set<string>) returns (a: string)
    requires names != {}
    ensures a in names && forall b <- names | b != a :: Less(a, b)
    decreases |names|
  {
    a :| a in names;
    var rest := names - {a};
    if rest != {} {
      var e := LeastExists(rest);
      LessTotal(a, e);
      if Less(e, a) {
        a := e;
      } else {
        forall b | b in rest && b != e ensures Less(a, b) {
          LessTransitive(a, e, b);
        }
      }
    }
  }

  predicate InSortOrder(out: seq<Path>) {
    forall i, j | 0 <= i < j < |out| :: Sooner(out[i], out[j]) && out[i] != out[j]
  }

  lemma SortedGrows(out: seq<Path>, d: Path)
    requires InSortOrder(out) && d !in out && forall e | e in out :: Sooner(e, d)
    ensures InSortOrder(out + [d])
  {
    forall i, j | 0 <= i < j < |out + [d]| ensures Sooner((out + [d])[i], (out + [d])[j]) && (out + [d])[i] != (out + [d])[j] {
      assert (out + [d])[i] == out[i] && out[i] in out;
    }
  }

  /** `sorted(all_dirs, key=...)`: shallowest first, and by name among equals. */
  method ByDepth(dirs: set<Path>) returns (out: seq<Path>)
    requires NamedApart(dirs)
    ensures forall d :: d in out <==> d in dirs
    ensures InSortOrder(out)
    ensures forall i, j | 0 <= i < j < |out| ::
      |out[i]| < |out[j]| || (|out[i]| == |out[j]| && Less(Joined(out[i]), Joined(out[j])))
  {
    out := [];
    var rest := dirs;
    while rest != {}
      invariant rest <= dirs && forall d :: d in out <==> d in dirs - rest
      invariant InSortOrder(out)
      invariant forall d, e | d in out && e in rest :: Sooner(d, e)
      decreases |rest|
    {
      ghost var soonest := SoonestExists(rest);
      var d :| d in rest && forall e <- rest | e != d :: Sooner(d, e);
      SortedGrows(out, d);
      out := out + [d];
      rest := rest - {d};
    }
  }

  method Sorted(names: set<string>) returns (out: seq<string>)
    ensures Canonical(out) && |out| == |names|
    ensures forall a :: a in out <==> a in names
  {
    out := [];
    var rest := names;
    while rest != {}
      invariant rest <= names && |out| + |rest| == |names|
      invariant forall a :: a in out <==> a in names - rest
      invariant Canonical(out)
      invariant forall a, b | a in out && b in rest :: Less(a, b)
      decreases |rest|
    {
      ghost var least := LeastExists(rest);
      var a :| a in rest && forall b <- rest | b != a :: Less(a, b);
      out := out + [a];
      rest := rest - {a};
    }
  }
}
