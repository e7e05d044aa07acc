/** Which files make the new generation: the verified old ones, with the reviewed
    ones over them (`_review_and_combine` in
    `deployment/analytics_isolated_source_install.py`). */
module SourceSelection {
  import opened Wrappers
  import opened SourceNames
  import opened SourceAudit
  import opened SourceInstall

  type Digest = nat

  const OLD_FILES: nat := 43
  const REVIEWED_FILES: nat := 32
  const SHARED_FILES: nat := 5
  const MAX_GENERATION: nat := 12582912

  /** `dict(entries)`: the last entry of a name counts. */
  function Dict(es: seq<Entry>): map<string, Bytes> {
    if es == [] then map[] else Dict(es[..|es| - 1])[es[|es| - 1].name := es[|es| - 1].raw]
  }

  function Size(es: seq<Entry>): nat {
    if es == [] then 0 else Size(es[..|es| - 1]) + |es[|es| - 1].raw|
  }

  /** Every old file is the approved one. */
  predicate Approved(sha: Bytes -> Digest, originals: map<string, Bytes>, baseline: map<string, Digest>) {
    && |originals| == OLD_FILES && |baseline| == OLD_FILES && originals.Keys == baseline.Keys
    && forall name <- originals :: sha(originals[name]) == baseline[name]
  }

  predicate Holds(d: map<string, Bytes>, e: Entry) {
    e.name in d && d[e.name] == e.raw
  }

  lemma {:induction false} DictKeys(es: seq<Entry>, name: string) returns (i: nat)
    requires name in Dict(es)
    ensures i < |es| && es[i].name == name
  {
    i := |es| - 1;
    if es[i].name != name {
      i := DictKeys(es[..i], name);
    }
  }

  lemma LastIsNew(es: seq<Entry>)
    requires es != [] && Canonical(Names(es))
    ensures Canonical(Names(es[..|es| - 1])) && es[|es| - 1].name !in Dict(es[..|es| - 1])
  {
    var n := |es| - 1;
    assert Names(es[..n]) == Names(es)[..n];
    LessTotal(es[n].name, es[n].name);
    forall i | 0 <= i < n ensures es[i].name != es[n].name {
      assert Less(Names(es)[i], Names(es)[n]);
    }
    if es[n].name in Dict(es[..n]) {
      var i := DictKeys(es[..n], es[n].name);
    }
  }

  /** Names in order are different names. */
  lemma {:induction false} CanonicalDict(es: seq<Entry>)
    requires Canonical(Names(es))
    ensures |Dict(es)| == |es|
    ensures forall i | 0 <= i < |es| :: Holds(Dict(es), es[i])
  {
    if es != [] {
      var n := |es| - 1;
      LastIsNew(es);
      CanonicalDict(es[..n]);
      assert |Dict(es)| == |Dict(es[..n])| + 1 by {
        assert Dict(es).Keys == Dict(es[..n]).Keys + {es[n].name};
        assert |Dict(es).Keys| == |Dict(es)| && |Dict(es[..n]).Keys| == |Dict(es[..n])|;
      }
      forall i | 0 <= i < |es| ensures Holds(Dict(es), es[i]) {
        if i < n {
          assert Holds(Dict(es[..n]), es[..n][i]);
        }
      }
    }
  }

  lemma UnionSize<T>(a: set<T>, b: set<T>)
    ensures |a + b| + |a * b| == |a| + |b|
  {
    assert |a + b| == |a| + |b - a| by {
      assert a + b == a + (b - a);
    }
    assert |b| == |b - a| + |a * b| by {
      assert b == (b - a) + (a * b);
    }
  }

  /** 43 old and 32 reviewed files are a generation of 70 exactly when five names are shared. */
  lemma SeventyIffFiveShared(originals: map<string, Bytes>, updated: seq<Entry>)
    requires |originals| == OLD_FILES && |updated| == REVIEWED_FILES && Canonical(Names(updated))
    ensures |originals + Dict(updated)| == GENERATION <==> |originals.Keys * Dict(updated).Keys| == SHARED_FILES
  {
    CanonicalDict(updated);
    UnionSize(originals.Keys, Dict(updated).Keys);
    assert |Dict(updated).Keys| == |Dict(updated)| && |originals.Keys| == |originals|;
    assert (originals + Dict(updated)).Keys == originals.Keys + Dict(updated).Keys;
    assert |(originals + Dict(updated)).Keys| == |originals + Dict(updated)|;
  }

  lemma LastIsHeld(es: seq<Entry>)
    requires es != []
    ensures Holds(Dict(es), es[|es| - 1])
  {
  }

  /** No name of a dict comes after the last one of its sorted listing. */
  lemma NoneAfterLast(es: seq<Entry>, name: string)
    requires Canonical(Names(es)) && name in Dict(es)
    ensures es != [] && (name == es[|es| - 1].name || Less(name, es[|es| - 1].name))
  {
    var i := DictKeys(es, name);
    assert i < |es| - 1 ==> Less(Names(es)[i], Names(es)[|es| - 1]);
  }

  lemma WithoutLast(es: seq<Entry>)
    requires es != [] && Canonical(Names(es))
    ensures Canonical(Names(es[..|es| - 1])) && Dict(es[..|es| - 1]) == Dict(es) - {es[|es| - 1].name}
  {
    LastIsNew(es);
    AddedAndRemoved(Dict(es[..|es| - 1]), es[|es| - 1].name, es[|es| - 1].raw);
  }

  lemma AddedAndRemoved(d: map<string, Bytes>, name: string, raw: Bytes)
    requires name !in d
    ensures d[name := raw] - {name} == d
  {
  }

  /** A dict has one sorted listing. */
  lemma {:induction false} CanonicalUnique(a: seq<Entry>, b: seq<Entry>)
    requires Canonical(Names(a)) && Canonical(Names(b)) && Dict(a) == Dict(b)
    ensures a == b
  {
    if a == [] {
      if b != [] {
        LastIsHeld(b);
      }
    } else {
      var x := a[|a| - 1];
      LastIsHeld(a);
      NoneAfterLast(b, x.name);
      var y := b[|b| - 1];
      LastIsHeld(b);
      NoneAfterLast(a, y.name);
      LessTotal(x.name, y.name);
      WithoutLast(a);
      WithoutLast(b);
      CanonicalUnique(a[..|a| - 1], b[..|b| - 1]);
      assert a == a[..|a| - 1] + [x] && b == b[..|b| - 1] + [y];
    }
  }

  /** The selection is good if its one sorted listing is. */
  ghost predicate Combines(sha: Bytes -> Digest, originals: map<string, Bytes>, baseline: map<string, Digest>,
                           updated: seq<Entry>, all: seq<Entry>) {
    && Approved(sha, originals, baseline) && |updated| == REVIEWED_FILES
    && Selected(all) && Dict(all) == originals + Dict(updated) && Size(all) <= MAX_GENERATION
  }

  /** `_review_and_combine`: `updated` is what the archive verification returned. */
  method ReviewAndCombine(sha: Bytes -> Digest, originals: map<string, Bytes>, baseline: map<string, Digest>, updated: seq<Entry>)
    returns (r: Option<seq<Entry>>)
    ensures r.Some? ==> Combines(sha, originals, baseline, updated, r.value)
    ensures r.None? ==> forall all :: !Combines(sha, originals, baseline, updated, all)
    ensures forall all | Canonical(Names(all)) && Dict(all) == originals + Dict(updated) ::
      var good := |originals| == 43 && |baseline| == 43 && originals.Keys == baseline.Keys && |updated| == 32
        && (forall name <- originals :: sha(originals[name]) == baseline[name]) && |all| == 70 && Size(all) <= 12582912;
      r == if good then Some(all) else None
  {
    var union := originals + Dict(updated);
    var items, size := SortedItems(union);
    OnlyListing(sha, originals, baseline, updated, items);
    forall all | Canonical(Names(all)) && Dict(all) == union ensures all == items {
      CanonicalUnique(all, items);
    }
    if !Approved(sha, originals, baseline) || |union| != GENERATION || |updated| != REVIEWED_FILES || size > MAX_GENERATION {
      return None;
    }
    return Some(items);
  }

  lemma OnlyListing(sha: Bytes -> Digest, originals: map<string, Bytes>, baseline: map<string, Digest>,
                    updated: seq<Entry>, items: seq<Entry>)
    requires Canonical(Names(items)) && Dict(items) == originals + Dict(updated)
    ensures forall all | Combines(sha, originals, baseline, updated, all) :: all == items
  {
    forall all | Combines(sha, originals, baseline, updated, all) ensures all == items {
      CanonicalUnique(all, items);
    }
  }

  /** `sorted(union.items())` and the size of all values. */
  method SortedItems(union: map<string, Bytes>) returns (items: seq<Entry>, size: nat)
    ensures Canonical(Names(items)) && Dict(items) == union && |items| == |union| && size == Size(items)
  {
    var names := Sorted(union.Keys);
    items, size := [], 0;
    var i := 0;
    while i < |names|
      invariant 0 <= i <= |names| && |items| == i && size == Size(items)
      invariant forall k | 0 <= k < i :: items[k] == Entry(names[k], union[names[k]])
    {
      var e := Entry(names[i], union[names[i]]);
      assert (items + [e])[..|items|] == items;
      items, size := items + [e], size + |union[names[i]]|;
      i := i + 1;
    }
    SortedIsUnion(union, names, items);
  }

  predicate Lists(union: map<string, Bytes>, names: seq<string>, items: seq<Entry>) {
    && |items| == |names|
    && forall k | 0 <= k < |names| :: names[k] in union && items[k] == Entry(names[k], union[names[k]])
  }

  lemma SortedIsUnion(union: map<string, Bytes>, names: seq<string>, items: seq<Entry>)
    requires Canonical(names) && |names| == |union.Keys| && Lists(union, names, items)
    requires forall name :: name in names <==> name in union.Keys
    ensures Canonical(Names(items)) && Dict(items) == union && |items| == |union|
  {
    assert Names(items) == names;
    CanonicalDict(items);
    NothingElseListed(union, names, items);
    forall name | name in union ensures name in Dict(items) && Dict(items)[name] == union[name] {
      UnionIsListed(union, names, items, name);
    }
    assert |union.Keys| == |union|;
  }

  lemma NothingElseListed(union: map<string, Bytes>, names: seq<string>, items: seq<Entry>)
    requires Lists(union, names, items)
    ensures forall name <- Dict(items) :: name in union
  {
    forall name <- Dict(items) ensures name in union {
      var k := DictKeys(items, name);
      assert names[k] in union;
    }
  }

  lemma UnionIsListed(union: map<string, Bytes>, names: seq<string>, items: seq<Entry>, name: string)
    requires Lists(union, names, items) && name in names
    requires forall k | 0 <= k < |items| :: Holds(Dict(items), items[k])
    ensures name in union && name in Dict(items) && Dict(items)[name] == union[name]
  {
    var k :| 0 <= k < |names| && names[k] == name;
    assert Holds(Dict(items), items[k]);
  }

  // ----- the old files ------------------------------------------------------

  const MAX_FILE: nat := 1048576

  /** One old file as it must be: below public directories, public itself, of a
      readable size, and the approved one. */
  predicate LegacyFile(t: Tree, sha: Bytes -> Digest, baseline: map<string, Digest>, name: string) {
    && name in baseline
    && (forall n | 1 <= n < |Parts(name)| :: Has(t, Parts(name)[..n], Dir(PUBLIC_DIR)))
    && Parts(name) in t && t[Parts(name)].File? && t[Parts(name)].mode == PUBLIC_FILE
    && 0 < |t[Parts(name)].raw| <= MAX_FILE && sha(t[Parts(name)].raw) == baseline[name]
  }

  function LegacySize(t: Tree, names: seq<string>): nat {
    if names == [] then 0
    else
      var p := Parts(names[|names| - 1]);
      LegacySize(t, names[..|names| - 1]) + (if p in t && t[p].File? then |t[p].raw| else 0)
  }

  lemma {:induction false} PrefixIsNoLarger(t: Tree, names: seq<string>, i: nat)
    requires i <= |names|
    ensures LegacySize(t, names[..i]) <= LegacySize(t, names)
    decreases |names|
  {
    if i < |names| {
      PrefixIsNoLarger(t, names[..|names| - 1], i);
      assert names[..|names| - 1][..i] == names[..i];
    } else {
      assert names[..i] == names;
    }
  }

  lemma NextSize(t: Tree, names: seq<string>, i: nat)
    requires i < |names| && Parts(names[i]) in t && t[Parts(names[i])].File?
    ensures LegacySize(t, names[..i + 1]) == LegacySize(t, names[..i]) + |t[Parts(names[i])].raw|
  {
    assert names[..i + 1][..i] == names[..i];
  }

  /** The closed list of old files, all as they must be. */
  predicate Legacy(t: Tree, sha: Bytes -> Digest, baseline: map<string, Digest>, names: seq<string>) {
    && |names| == OLD_FILES && (forall name <- names :: name in baseline) && (forall name <- baseline :: name in names)
    && (forall i | 0 <= i < |names| :: LegacyFile(t, sha, baseline, names[i]))
    && LegacySize(t, names) <= MAX_GENERATION
  }

  /** A file of mode 0644 with this hash, of 1 byte to 1 MiB, below directories of mode 0755. */
  predicate Public(t: Tree, sha: Bytes -> Digest, name: string, hash: Digest) {
    var p := Parts(name);
    && p in t && t[p].File? && t[p].mode == 0x1A4 && sha(t[p].raw) == hash && 0 < |t[p].raw| <= 1048576
    && forall n | 1 <= n < |p| :: Has(t, p[..n], Dir(0x1ED))
  }

  lemma LegacyIsPublic(t: Tree, sha: Bytes -> Digest, baseline: map<string, Digest>, names: seq<string>)
    requires Legacy(t, sha, baseline, names)
    ensures forall name <- baseline :: Public(t, sha, name, baseline[name])
  {
    forall name <- baseline ensures Public(t, sha, name, baseline[name]) {
      var i :| 0 <= i < |names| && names[i] == name;
      assert LegacyFile(t, sha, baseline, names[i]);
    }
  }

  /** What the tree holds under the names of the list. */
  function Originals(t: Tree, baseline: map<string, Digest>): map<string, Bytes> {
    map name | name in baseline && Parts(name) in t && t[Parts(name)].File? :: t[Parts(name)].raw
  }

  lemma ReadIsOriginals(t: Tree, baseline: map<string, Digest>, got: map<string, Bytes>)
    requires got.Keys == baseline.Keys
    requires forall name <- got :: Has(t, Parts(name), File(got[name], PUBLIC_FILE))
    ensures got == Originals(t, baseline)
  {
    forall name <- got ensures name in Originals(t, baseline) && Originals(t, baseline)[name] == got[name] {
      assert Has(t, Parts(name), File(got[name], PUBLIC_FILE));
    }
  }

  /** The walk from the root to one old file. */
  method ReadLegacyFile(t: Tree, sha: Bytes -> Digest, baseline: map<string, Digest>, name: string, faultless: bool)
    returns (r: Option<Bytes>)
    ensures r.Some? ==> LegacyFile(t, sha, baseline, name) && r.value == t[Parts(name)].raw
    ensures faultless ==> (r.Some? <==> LegacyFile(t, sha, baseline, name))
  {
    var p := Parts(name);
    var n := 1;
    while n < |p|
      invariant 1 <= n <= |p| && forall m | 1 <= m < n :: Has(t, p[..m], Dir(PUBLIC_DIR))
    {
      var ok := Works(faultless);
      if !ok || !Has(t, p[..n], Dir(PUBLIC_DIR)) {
        return None;
      }
      n := n + 1;
    }
    var found := Works(faultless);
    if !found || name !in baseline || p !in t || t[p].Dir? || t[p].mode != PUBLIC_FILE {
      return None;
    }
    var raw := t[p].raw;
    if !(0 < |raw| <= MAX_FILE) || sha(raw) != baseline[name] {
      return None;
    }
    return Some(raw);
  }

  /** One round of the loop. */
  method ReadNext(t: Tree, sha: Bytes -> Digest, baseline: map<string, Digest>, names: seq<string>, i: nat,
                  got0: map<string, Bytes>, total0: nat, faultless: bool)
    returns (ok: bool, got: map<string, Bytes>, total: nat)
    requires i < |names| && ReadSoFar(t, sha, baseline, names, i, got0, total0)
    ensures ok ==> ReadSoFar(t, sha, baseline, names, i + 1, got, total)
    ensures !ok && faultless ==> !Legacy(t, sha, baseline, names)
  {
    got, total := got0, total0;
    var raw := ReadLegacyFile(t, sha, baseline, names[i], faultless);
    if raw.None? {
      return false, got, total;
    }
    ReadSoFarGrows(t, sha, baseline, names, i, got, total, raw.value);
    PrefixIsNoLarger(t, names, i + 1);
    total := total + |raw.value|;
    if total > MAX_GENERATION {
      return false, got, total;
    }
    ok, got := true, got[names[i] := raw.value];
  }

  /** `_read_legacy_sources`: the old files exactly as they are in the original tree. */
  method ReadLegacySources(t: Tree, sha: Bytes -> Digest, baseline: map<string, Digest>, names: seq<string>, faultless: bool)
    returns (r: Option<map<string, Bytes>>)
    ensures r.Some? ==> Legacy(t, sha, baseline, names)
    ensures r.Some? ==> r.value.Keys == baseline.Keys && forall name <- r.value :: Has(t, Parts(name), File(r.value[name], PUBLIC_FILE))
    ensures r.Some? ==> r.value == Originals(t, baseline)
    ensures faultless ==> (r.Some? <==> Legacy(t, sha, baseline, names))
    ensures r.Some? ==> |names| == 43 && LegacySize(t, names) <= 12582912
    ensures r.Some? ==> forall name <- baseline :: Public(t, sha, name, baseline[name])
  {
    if |names| != OLD_FILES || (exists name <- names :: name !in baseline) || exists name <- baseline :: name !in names {
      return None;
    }
    var got: map<string, Bytes> := map[];
    var i, total: nat := 0, 0;
    assert names[..0] == [];
    while i < |names|
      invariant 0 <= i <= |names| && ReadSoFar(t, sha, baseline, names, i, got, total)
    {
      var ok;
      ok, got, total := ReadNext(t, sha, baseline, names, i, got, total, faultless);
      if !ok {
        return None;
      }
      i := i + 1;
    }
    AllRead(t, sha, baseline, names, got, total);
    return Some(got);
  }

  /** The dictionary and the total after `i` files. */
  predicate ReadSoFar(t: Tree, sha: Bytes -> Digest, baseline: map<string, Digest>, names: seq<string>, i: nat,
                      got: map<string, Bytes>, total: nat)
    requires i <= |names|
  {
    && (forall k | 0 <= k < i :: LegacyFile(t, sha, baseline, names[k]))
    && total == LegacySize(t, names[..i]) <= MAX_GENERATION
    && (forall name <- names[..i] :: name in got) && (forall name <- got :: name in names[..i])
    && (forall name <- got :: Has(t, Parts(name), File(got[name], PUBLIC_FILE)))
  }

  /** After the last file. */
  lemma AllRead(t: Tree, sha: Bytes -> Digest, baseline: map<string, Digest>, names: seq<string>,
                got: map<string, Bytes>, total: nat)
    requires |names| == OLD_FILES && (forall name <- names :: name in baseline) && (forall name <- baseline :: name in names)
    requires ReadSoFar(t, sha, baseline, names, |names|, got, total)
    ensures Legacy(t, sha, baseline, names) && got == Originals(t, baseline)
    ensures got.Keys == baseline.Keys && forall name <- got :: Has(t, Parts(name), File(got[name], PUBLIC_FILE))
    ensures forall name <- baseline :: Public(t, sha, name, baseline[name])
  {
    assert names[..|names|] == names;
    ReadIsOriginals(t, baseline, got);
    LegacyIsPublic(t, sha, baseline, names);
  }

  lemma ReadSoFarGrows(t: Tree, sha: Bytes -> Digest, baseline: map<string, Digest>, names: seq<string>, i: nat,
                       got: map<string, Bytes>, total: nat, raw: Bytes)
    requires i < |names| && ReadSoFar(t, sha, baseline, names, i, got, total)
    requires LegacyFile(t, sha, baseline, names[i]) && raw == t[Parts(names[i])].raw
    ensures LegacySize(t, names[..i + 1]) == total + |raw|
    ensures total + |raw| <= MAX_GENERATION ==> ReadSoFar(t, sha, baseline, names, i + 1, got[names[i] := raw], total + |raw|)
  {
    NextSize(t, names, i);
    assert names[..i + 1] == names[..i] + [names[i]];
  }

  // ----- the installation ---------------------------------------------------

  /** Every file of the generation is the reviewed one of its name, or else the
      one the original tree has. */
  ghost predicate Composed(original: Tree, updated: seq<Entry>, es: seq<Entry>) {
    forall i | 0 <= i < |es| :: From(original, Dict(updated), es[i])
  }

  predicate From(original: Tree, reviewed: map<string, Bytes>, e: Entry) {
    if e.name in reviewed then e.raw == reviewed[e.name] else Has(original, At(e), File(e.raw, PUBLIC_FILE))
  }

  /** The old files are as they must be and combine with the reviewed ones to `es`. */
  ghost predicate Installable(t: Tree, sha: Bytes -> Digest, baseline: map<string, Digest>, names: seq<string>,
                              updated: seq<Entry>, es: seq<Entry>) {
    Legacy(t, sha, baseline, names) && Combines(sha, Originals(t, baseline), baseline, updated, es)
  }

  ghost predicate NeverInstallable(t: Tree, sha: Bytes -> Digest, baseline: map<string, Digest>, names: seq<string>,
                                   updated: seq<Entry>) {
    forall es :: !Installable(t, sha, baseline, names, updated, es)
  }

  /** The old files, read and combined with the reviewed ones. */
  method ReadAndCombine(t: Tree, sha: Bytes -> Digest, baseline: map<string, Digest>, names: seq<string>,
                        updated: seq<Entry>, faultless: bool)
    returns (r: Option<seq<Entry>>)
    ensures r.Some? ==> Installable(t, sha, baseline, names, updated, r.value)
    ensures r.Some? ==> Selected(r.value) && Composed(t, updated, r.value)
    ensures r.None? && faultless ==> NeverInstallable(t, sha, baseline, names, updated)
  {
    var originals := ReadLegacySources(t, sha, baseline, names, faultless);
    if originals.None? {
      return None;
    }
    r := ReviewAndCombine(sha, originals.value, baseline, updated);
    if r.Some? {
      CombinedIsComposed(t, sha, originals.value, baseline, updated, r.value);
    }
  }

  /** A whole generation: exactly these selected files, composed of the reviewed and the original ones. */
  ghost predicate Whole(t: Tree, original: Tree, updated: seq<Entry>, es: seq<Entry>) {
    Exact(t, es) && Selected(es) && Composed(original, updated, es)
  }

  /** `_publish_isolated_generation`: what is published is exactly the original
      files with the reviewed ones over them, and the original tree stays as it
      is. Without faults only a bad selection or a taken name refuses. */
  method Install(parent: ReviewedParent, sha: Bytes -> Digest, baseline: map<string, Digest>, names: seq<string>,
                 updated: seq<Entry>, rename: Outcome)
    returns (r: Result, ghost es: seq<Entry>)
    modifies parent`stage, parent`published
    ensures parent.published == old(parent.published)
      || (old(parent.published) == None && parent.published.Some? && Whole(parent.published.value, parent.original, updated, es))
    ensures r == Published ==> parent.published != old(parent.published)
    ensures r == Refused ==> parent.stage == old(parent.stage) && parent.published == old(parent.published)
    ensures r == Undone ==> parent.stage == None == old(parent.stage) && parent.published == old(parent.published)
    ensures parent.faultless && rename != Control && r == Refused ==>
      !Vacant(old(parent.stage), old(parent.published)) || NeverInstallable(parent.original, sha, baseline, names, updated)
    ensures parent.faultless && rename != Control && r != Refused ==>
      Vacant(old(parent.stage), old(parent.published)) && Installable(parent.original, sha, baseline, names, updated, es)
      && r == if Stageable(es) && rename == Returned then Published else Undone
  {
    es := [];
    var combined := ReadAndCombine(parent.original, sha, baseline, names, updated, parent.faultless);
    if combined.None? {
      return Refused, es;
    }
    es := combined.value;
    r := parent.Publish(combined.value, rename);
  }

  lemma CombinedIsComposed(original: Tree, sha: Bytes -> Digest, originals: map<string, Bytes>, baseline: map<string, Digest>,
                           updated: seq<Entry>, es: seq<Entry>)
    requires Combines(sha, originals, baseline, updated, es)
    requires forall name <- originals :: Has(original, Parts(name), File(originals[name], PUBLIC_FILE))
    ensures Composed(original, updated, es)
  {
    CanonicalDict(es);
    forall i | 0 <= i < |es| ensures From(original, Dict(updated), es[i]) {
      assert Holds(Dict(es), es[i]);
    }
  }
}
