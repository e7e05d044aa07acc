/** `FilesystemAuditSink` step by step. Every filesystem step may fail, and the
    ghost log `reached` holds every directory a stopped process could leave
    behind, so a property of all of `reached` is a property of every crash. */
module AuditSink {
  import opened Wrappers
  import opened AuditChain
  import opened AuditAppend

  /** `tail` is what is left of `whole` after dropping a prefix. */
  ghost predicate IsTail(tail: seq<Record>, whole: seq<Record>) {
    exists n: nat :: n <= |whole| && tail == whole[n..]
  }

  /** A line without its newline: a short or interrupted write. */
  predicate TornAppend(d: Dir) {
    d.current.Some? && d.current.value.torn > 0
  }

  /** A compressed rotation next to the plain file it was made from. */
  ghost predicate CopyBesideSource(d: Dir) {
    exists k | 0 <= k < |d.rotations| :: CopyAt(d, k)
  }

  predicate CopyAt(d: Dir, k: nat) {
    && k + 1 < |d.rotations|
    && SameKey(d.rotations[k], d.rotations[k + 1])
    && d.rotations[k].body == d.rotations[k + 1].body
  }

  /** What a stopped append leaves behind: a history that is still accepted and
      is the old or the new one less a prefix, or one of the two windows every
      later append refuses. There are no others. */
  ghost predicate CrashState(c: Codec, d: Dir, before: Dir, rec: Record) {
    || (Accepts(c, d) && (IsTail(History(d), History(before)) || IsTail(History(d), History(before) + [rec])))
    || (!Accepts(c, d) && (TornAppend(d) || CopyBesideSource(d)))
  }

  /** The same files as the last ones of `base`, some of them compressed. */
  predicate Packs(rs: seq<Rotation>, base: seq<Rotation>) {
    && |rs| <= |base|
    && forall i | 0 <= i < |rs| ::
      SameKey(rs[i], base[|base| - |rs| + i]) && rs[i].body == base[|base| - |rs| + i].body
  }

  lemma {:induction false} PackedRecords(rs: seq<Rotation>, base: seq<Rotation>)
    requires Packs(rs, base)
    ensures Records(rs) == Records(base[|base| - |rs|..])
  {
    if rs != [] {
      var tail := base[|base| - |rs|..];
      PackedRecords(rs[1..], base);
      assert tail[1..] == base[|base| - |rs[1..]|..];
      assert rs[0].body == tail[0].body;
    }
  }

  lemma PackedTail(rs: seq<Rotation>, base: seq<Rotation>) returns (n: nat)
    requires Packs(rs, base)
    ensures n <= |Records(base)| && Records(rs) == Records(base)[n..]
  {
    var k := |base| - |rs|;
    PackedRecords(rs, base);
    RecordsConcat(base[..k], base[k..]);
    assert base == base[..k] + base[k..];
    n := |Records(base[..k])|;
  }

  /** A nonempty file listed twice repeats an event identity. */
  lemma RepeatedFileIsRefused(c: Codec, d: Dir, k: nat)
    requires k + 1 < |d.rotations|
    requires d.rotations[k].body == d.rotations[k + 1].body && d.rotations[k].body.records != []
    ensures !DistinctIds(History(d))
  {
    var rs := d.rotations;
    var x := rs[k].body.records;
    var a := Records(rs[..k]);
    assert rs == rs[..k] + ([rs[k]] + ([rs[k + 1]] + rs[k + 2..]));
    RecordsConcat(rs[..k], [rs[k]] + ([rs[k + 1]] + rs[k + 2..]));
    RecordsConcat([rs[k]], [rs[k + 1]] + rs[k + 2..]);
    RecordsConcat([rs[k + 1]], rs[k + 2..]);
    RecordsOne(rs[k]);
    RecordsOne(rs[k + 1]);
    var h := History(d);
    assert h[|a|] == x[0] && h[|a| + |x|] == x[0];
  }

  /** Any tail of an accepted history, packed over readable files, is accepted. */
  lemma PackedIsAccepted(c: Codec, d: Dir, base: Dir)
    requires Accepts(c, base) && Regular(base)
    requires Packs(d.rotations, base.rotations) && d.current == base.current
    requires d.rotations == [] ==> base.rotations == []
    ensures Accepts(c, d) && IsTail(History(d), History(base)) && Regular(d)
  {
    var n := PackedTail(d.rotations, base.rotations);
    assert History(d) == History(base)[n..];
    var h := History(base);
    forall i, j | 0 <= i < j < |h[n..]| ensures h[n..][i].event.id != h[n..][j].event.id {
    }
  }

  // ----- reading the files in order -----------------------------------------

  function Bodies(d: Dir): (bs: seq<Body>)
    ensures |bs| == |d.rotations| + (if d.current.Some? then 1 else 0)
    ensures forall i | 0 <= i < |d.rotations| :: bs[i] == d.rotations[i].body
    ensures d.current.Some? ==> bs[|d.rotations|] == d.current.value
  {
    seq(|d.rotations|, i requires 0 <= i < |d.rotations| => d.rotations[i].body)
    + (if d.current.Some? then [d.current.value] else [])
  }

  function Flatten(bs: seq<Body>): seq<Record> {
    if bs == [] then [] else bs[0].records + Flatten(bs[1..])
  }

  lemma {:induction false} FlattenConcat(a: seq<Body>, b: seq<Body>)
    ensures Flatten(a + b) == Flatten(a) + Flatten(b)
  {
    if a == [] {
      assert a + b == b;
    } else {
      FlattenConcat(a[1..], b);
      assert (a + b)[1..] == a[1..] + b && (a + b)[0] == a[0];
      Regroup(a[0].records, Flatten(a[1..]), Flatten(b));
    }
  }

  lemma FlattenSplit(bs: seq<Body>, f: nat)
    requires f < |bs|
    ensures Flatten(bs[..f + 1]) == Flatten(bs[..f]) + bs[f].records
    ensures Flatten(bs) == Flatten(bs[..f]) + bs[f].records + Flatten(bs[f + 1..])
  {
    FlattenNext(bs, f);
    FlattenHalves(bs, f + 1);
  }

  lemma FlattenHalves(bs: seq<Body>, n: nat)
    requires n <= |bs|
    ensures Flatten(bs) == Flatten(bs[..n]) + Flatten(bs[n..])
  {
    FlattenConcat(bs[..n], bs[n..]);
    assert bs == bs[..n] + bs[n..];
  }

  lemma FlattenNext(bs: seq<Body>, f: nat)
    requires f < |bs|
    ensures Flatten(bs[..f + 1]) == Flatten(bs[..f]) + bs[f].records
  {
    FlattenSnoc(bs[..f], bs[f]);
    assert bs[..f + 1] == bs[..f] + [bs[f]];
  }

  lemma FlattenSnoc(bs: seq<Body>, b: Body)
    ensures Flatten(bs + [b]) == Flatten(bs) + b.records
  {
    FlattenConcat(bs, [b]);
    assert [b][1..] == [] && Flatten([b]) == b.records;
  }

  lemma {:induction false} RotationBodies(rs: seq<Rotation>)
    ensures Flatten(Bodies(Dir(rs, None))) == Records(rs)
  {
    if rs != [] {
      RotationBodies(rs[1..]);
      assert Bodies(Dir(rs, None))[1..] == Bodies(Dir(rs[1..], None));
    }
  }

  lemma HistoryOfBodies(d: Dir)
    ensures Flatten(Bodies(d)) == History(d)
  {
    RotationBodies(d.rotations);
    if d.current.Some? {
      FlattenConcat(Bodies(Dir(d.rotations, None)), [d.current.value]);
      assert Bodies(d) == Bodies(Dir(d.rotations, None)) + [d.current.value];
      assert [d.current.value][1..] == [];
    } else {
      assert Bodies(d) == Bodies(Dir(d.rotations, None));
    }
  }

  predicate ReadableTo(c: Codec, bs: seq<Body>, n: nat)
    requires n <= |bs|
  {
    forall i | 0 <= i < n :: Readable(c, bs[i])
  }

  lemma AcceptsByFile(c: Codec, d: Dir)
    ensures Accepts(c, d) <==>
      ReadableTo(c, Bodies(d), |Bodies(d)|) && Sound(c, History(d), d.rotations != [])
  {
    var bs := Bodies(d);
    if ReadableTo(c, bs, |bs|) {
      forall i | 0 <= i < |d.rotations| ensures Readable(c, d.rotations[i].body) {
        assert Readable(c, bs[i]);
      }
    }
  }

  /** Whole lines of at most 16 KiB, at most 10 MiB and one line in all. */
  predicate Intact(c: Codec, b: Body) {
    b.torn == 0 && (forall rec <- b.records :: c.width(rec) <= 16384) && Bytes(c, b.records) <= 10502144
  }

  /** Every record names the hash of the one before it; the first names none, unless a rotation holds it. */
  predicate Linked(c: Codec, d: Dir) {
    var h := History(d);
    && (forall i | 0 < i < |h| :: h[i].previous == Some(c.sha(h[i - 1])))
    && (h != [] && d.rotations == [] ==> h[0].previous == None)
  }

  lemma IntactIff(c: Codec, b: Body)
    ensures Readable(c, b) <==> Intact(c, b)
  {
  }

  lemma LinkedIff(c: Codec, d: Dir)
    ensures Chained(c, History(d), d.rotations != []) <==> Linked(c, d)
  {
  }

  /** What the validator accepts: whole files within the bounds, one chain, no id twice. */
  lemma AcceptsIff(c: Codec, d: Dir)
    ensures Accepts(c, d) <==>
      && (forall b <- Bodies(d) :: Intact(c, b)) && Linked(c, d)
      && forall i, j | 0 <= i < j < |History(d)| :: History(d)[i].event.id != History(d)[j].event.id
  {
    LinkedIff(c, d);
    AcceptsByFile(c, d);
    var bs := Bodies(d);
    if ReadableTo(c, bs, |bs|) {
      forall b <- bs ensures Intact(c, b) {
        var i :| 0 <= i < |bs| && bs[i] == b;
        IntactIff(c, bs[i]);
      }
    }
    if forall b <- bs :: Intact(c, b) {
      forall i | 0 <= i < |bs| ensures Readable(c, bs[i]) {
        IntactIff(c, bs[i]);
      }
    }
  }

  predicate Sound(c: Codec, recs: seq<Record>, anchored: bool) {
    Chained(c, recs, anchored) && DistinctIds(recs)
  }

  lemma UnsoundStaysUnsound(c: Codec, recs: seq<Record>, more: seq<Record>, anchored: bool)
    ensures Sound(c, recs + more, anchored) ==> Sound(c, recs, anchored)
  {
    var all := recs + more;
    if Sound(c, all, anchored) {
      assert forall i | 0 <= i < |recs| :: recs[i] == all[i];
    }
  }

  /** The three tests the loop makes on one record are exactly soundness. */
  lemma SoundStep(c: Codec, seen: seq<Record>, rec: Record, anchored: bool)
    requires Sound(c, seen, anchored)
    ensures Ids(seen + [rec]) == Ids(seen) + {rec.event.id}
    ensures Sound(c, seen + [rec], anchored) <==>
      && rec.event.id !in Ids(seen)
      && rec.previous == (if seen == [] && anchored then rec.previous else LastDigest(c, seen))
  {
    var out := seen + [rec];
    ExtendIds(seen, rec);
    assert out[|seen|] == rec;
    if rec.event.id in Ids(seen) {
      var i :| 0 <= i < |seen| && seen[i].event.id == rec.event.id;
      assert out[i].event.id == out[|seen|].event.id;
    } else {
      forall i, j | 0 <= i < j < |out| ensures out[i].event.id != out[j].event.id {
        if j == |seen| {
          assert out[i].event.id in Ids(seen);
        }
      }
    }
    if seen != [] {
      assert out[|seen| - 1] == seen[|seen| - 1];
    }
  }

  /** The loop variables of `_validate_history` after the records `seen`. */
  predicate Scanned(c: Codec, seen: seq<Record>, anchored: bool, previous: Option<Digest>, ids: set<string>,
                    lastDay: Option<nat>, first: bool)
  {
    && Sound(c, seen, anchored)
    && (first <==> seen == [])
    && previous == LastDigest(c, seen) && ids == Ids(seen) && lastDay == LastDay(seen)
  }

  lemma ScanStep(c: Codec, seen: seq<Record>, recs: seq<Record>, k: nat, anchored: bool)
    requires k < |recs| && Sound(c, seen + recs[..k], anchored)
    ensures var before, after, rec := seen + recs[..k], seen + recs[..k + 1], recs[k];
      && after != []
      && LastDigest(c, after) == Some(c.sha(rec)) && LastDay(after) == Some(rec.event.stamp.day)
      && Ids(after) == Ids(before) + {rec.event.id}
      && (Sound(c, after, anchored) <==>
          && rec.event.id !in Ids(before)
          && rec.previous == (if before == [] && anchored then rec.previous else LastDigest(c, before)))
    ensures !Sound(c, seen + recs[..k + 1], anchored) ==> !Sound(c, seen + recs, anchored)
  {
    assert seen + recs[..k + 1] == seen + recs[..k] + [recs[k]];
    SoundStep(c, seen + recs[..k], recs[k], anchored);
    assert seen + recs == seen + recs[..k + 1] + recs[k + 1..];
    UnsoundStaysUnsound(c, seen + recs[..k + 1], recs[k + 1..], anchored);
  }

  class FilesystemAuditSink {
    const codec: Codec
    const rotateBytes: nat
    const faultless: bool // no step fails for a reason outside the directory
    var dir: Dir
    ghost var reached: seq<Dir>

    ghost predicate Valid()
      reads this
    {
      && ValidCodec(codec) && rotateBytes <= ROTATE_BYTES
      && Listed(dir.rotations)
      && reached != [] && reached[|reached| - 1] == dir
    }

    /** The constructor of the source refuses other thresholds. */
    constructor (codec: Codec, rotateBytes: nat, dir: Dir, faultless: bool)
      requires ValidCodec(codec) && 1024 <= rotateBytes <= ROTATE_BYTES && Listed(dir.rotations)
      ensures Valid() && this.codec == codec && this.rotateBytes == rotateBytes
      ensures this.dir == dir && this.faultless == faultless && reached == [dir]
    {
      this.codec, this.rotateBytes, this.faultless, this.dir, reached := codec, rotateBytes, faultless, dir, [dir];
    }

    /** Something outside may fail. */
    method Works() returns (ok: bool)
      ensures faultless ==> ok
    {
      ok := *;
      ok := ok || faultless;
    }

    /** One atomic filesystem step. */
    method Become(next: Dir)
      requires Valid() && Listed(next.rotations)
      modifies this
      ensures Valid() && dir == next && reached == old(reached) + [next]
    {
      dir := next;
      reached := reached + [next];
    }

    /** The inner loop of `_validate_history`: one file's records, after `seen`. */
    method ScanFile(recs: seq<Record>, previous0: Option<Digest>, ids0: set<string>, lastDay0: Option<nat>,
                    first0: bool, anchored: bool, ghost seen0: seq<Record>)
      returns (ok: bool, previous: Option<Digest>, ids: set<string>, lastDay: Option<nat>, first: bool)
      requires Scanned(codec, seen0, anchored, previous0, ids0, lastDay0, first0)
      ensures ok <==> Sound(codec, seen0 + recs, anchored)
      ensures ok ==> Scanned(codec, seen0 + recs, anchored, previous, ids, lastDay, first)
    {
      ok, previous, ids, lastDay, first := true, previous0, ids0, lastDay0, first0;
      var k := 0;
      assert recs[..0] == [] && seen0 + [] == seen0;
      while k < |recs|
        invariant 0 <= k <= |recs|
        invariant Scanned(codec, seen0 + recs[..k], anchored, previous, ids, lastDay, first)
      {
        var rec := recs[k];
        if first && anchored {
          previous := rec.previous;
        }
        ScanStep(codec, seen0, recs, k, anchored);
        if rec.previous != previous || rec.event.id in ids {
          ok := false;
          return;
        }
        ids := ids + {rec.event.id};
        previous := Some(codec.sha(rec));
        lastDay := Some(rec.event.stamp.day);
        first := false;
        k := k + 1;
      }
      assert recs[..|recs|] == recs;
    }

    /** The next file of the loop: readable, and sound after those before it. */
    method ScanNext(bodies: seq<Body>, f: nat, previous0: Option<Digest>, ids0: set<string>, lastDay0: Option<nat>,
                    first0: bool, anchored: bool)
      returns (ok: bool, previous: Option<Digest>, ids: set<string>, lastDay: Option<nat>, first: bool)
      requires f < |bodies| && Scanned(codec, Flatten(bodies[..f]), anchored, previous0, ids0, lastDay0, first0)
      ensures ok ==> Readable(codec, bodies[f])
      ensures ok ==> Scanned(codec, Flatten(bodies[..f + 1]), anchored, previous, ids, lastDay, first)
      ensures !ok ==> !Readable(codec, bodies[f]) || !Sound(codec, Flatten(bodies), anchored)
    {
      if !Readable(codec, bodies[f]) {
        return false, previous0, ids0, lastDay0, first0;
      }
      ghost var seen := Flatten(bodies[..f]);
      FlattenSplit(bodies, f);
      ok, previous, ids, lastDay, first :=
        ScanFile(bodies[f].records, previous0, ids0, lastDay0, first0, anchored, seen);
      if !ok {
        UnsoundStaysUnsound(codec, seen + bodies[f].records, Flatten(bodies[f + 1..]), anchored);
      }
    }

    /** The loop over the files. */
    method ScanAll(bodies: seq<Body>, anchored: bool) returns (r: Option<(Option<Digest>, set<string>, Option<nat>)>)
      ensures r.Some? <==> ReadableTo(codec, bodies, |bodies|) && Sound(codec, Flatten(bodies), anchored)
      ensures r.Some? ==>
        r.value == (LastDigest(codec, Flatten(bodies)), Ids(Flatten(bodies)), LastDay(Flatten(bodies)))
    {
      var previous: Option<Digest>, ids: set<string>, lastDay: Option<nat>, first := None, {}, None, true;
      var f := 0;
      while f < |bodies|
        invariant 0 <= f <= |bodies|
        invariant ReadableTo(codec, bodies, f)
        invariant Scanned(codec, Flatten(bodies[..f]), anchored, previous, ids, lastDay, first)
      {
        var ok;
        ok, previous, ids, lastDay, first := ScanNext(bodies, f, previous, ids, lastDay, first, anchored);
        if !ok {
          return None;
        }
        f := f + 1;
      }
      assert bodies[..|bodies|] == bodies;
      return Some((previous, ids, lastDay));
    }

    /** Rereads everything in name order; `None` is the source's refusal. */
    method ValidateHistory() returns (r: Option<(Option<Digest>, set<string>, Option<nat>)>)
      ensures r.Some? <==> Accepts(codec, dir)
      ensures r.Some? <==>
        && (forall b <- Bodies(dir) :: Intact(codec, b)) && Linked(codec, dir)
        && forall i, j | 0 <= i < j < |History(dir)| :: History(dir)[i].event.id != History(dir)[j].event.id
      ensures r.Some? ==>
        r.value == (LastDigest(codec, History(dir)), Ids(History(dir)), LastDay(History(dir)))
    {
      HistoryOfBodies(dir);
      AcceptsByFile(codec, dir);
      AcceptsIff(codec, dir);
      r := ScanAll(Bodies(dir), dir.rotations != []);
    }

    /** One round of the compression loop: write the copy under its final name,
        unless that is taken, then remove the source. */
    method CompressOne(i: nat) returns (ok: bool)
      requires Valid() && i < |dir.rotations| && !dir.rotations[i].gz
      modifies this
      ensures Valid() && dir.current == old(dir.current)
      ensures ok ==> dir.rotations == old(dir.rotations[i := dir.rotations[i].(gz := true)])
      ensures ok ==> reached == old(reached) + [CopiedAt(old(dir), i), dir]
      ensures !ok ==> reached == old(reached) || reached == old(reached) + [CopiedAt(old(dir), i)]
      ensures faultless ==> (ok <==> !Taken(old(dir.rotations), old(dir.rotations[i].(gz := true))))
    {
      var packed := dir.rotations[i].(gz := true);
      ok := Works();
      if !ok || Taken(dir.rotations, packed) {
        return false;
      }
      NextIsNoCopy(dir.rotations, i);
      PackedInPlace(dir.rotations, i);
      Become(dir.(rotations := Insert(dir.rotations, packed)));
      ok := Works();
      if !ok {
        return;
      }
      var rs := dir.rotations;
      ListedRemove(rs, i);
      Become(dir.(rotations := rs[..i] + rs[i + 1..]));
    }

    /** The loop body: nothing to do for compressed names and the newest one. */
    method CompressNext(i: nat, newest: Rotation, ghost base: Dir, ghost log: seq<Dir>) returns (ok: bool)
      requires Valid() && i < |base.rotations| && dir.current == base.current
      requires dir.rotations == Partly(base.rotations, newest, i) && Grown(log, base)
      modifies this
      ensures Valid() && dir.current == base.current && Grown(log, base)
      ensures ok ==> dir.rotations == Partly(base.rotations, newest, i + 1)
      ensures faultless && Listed(base.rotations) ==> (ok <==> PackableAt(base.rotations, newest, i))
    {
      PartlyStep(base.rotations, newest, i);
      var source := dir.rotations[i];
      if source.gz || SameName(source, newest) {
        return true;
      }
      if Listed(base.rotations) {
        TakenIffPaired(base.rotations, newest, i);
      }
      CompressingIsInterim(dir, base, newest, i);
      ghost var mid := reached;
      ghost var copied := CopiedAt(dir, i);
      ok := CompressOne(i);
      GrownByTwo(mid, log, base, copied, dir);
    }

    /** `_compress_delayed`: compress all but the newest rotation, one file at a
        time, then drop the oldest until fourteen are left. */
    method CompressDelayed(newest: Rotation) returns (ok: bool)
      requires Valid()
      modifies this
      ensures Valid() && dir.current == old(dir.current)
      ensures ok ==> dir.rotations == Retained(Compressed(old(dir.rotations), newest))
      ensures Grown(old(reached), old(dir))
      ensures faultless ==> (ok <==> Packable(old(dir.rotations), newest, |old(dir.rotations)|))
    {
      PartlyEnds(dir.rotations, newest);
      ok := CompressAll(newest, dir, reached);
      if ok {
        ok := DropOldest(old(dir), old(reached));
      }
    }

    /** The loop of `_compress_delayed`. */
    method CompressAll(newest: Rotation, ghost base: Dir, ghost log: seq<Dir>) returns (ok: bool)
      requires Valid() && dir == base && Grown(log, base) && dir.rotations == Partly(base.rotations, newest, 0)
      modifies this
      ensures Valid() && dir.current == base.current && Grown(log, base)
      ensures ok ==> dir.rotations == Partly(base.rotations, newest, |base.rotations|)
      ensures faultless ==> (ok <==> Packable(base.rotations, newest, |base.rotations|))
    {
      var i := 0;
      while i < |dir.rotations|
        invariant Valid() && dir.current == base.current && Grown(log, base)
        invariant 0 <= i <= |dir.rotations| == |base.rotations| && Listed(base.rotations)
        invariant dir.rotations == Partly(base.rotations, newest, i)
        invariant faultless ==> Packable(base.rotations, newest, i)
      {
        ok := CompressNext(i, newest, base, log);
        if !ok {
          if faultless {
            NotPackableAt(base.rotations, newest, i, |base.rotations|);
          }
          return;
        }
        i := i + 1;
      }
      ok := true;
    }

    /** Removes the oldest rotation until no more than fourteen are left. */
    method DropOldest(ghost base: Dir, ghost log: seq<Dir>) returns (ok: bool)
      requires Valid() && Packs(dir.rotations, base.rotations) && dir.current == base.current
      requires Grown(log, base)
      modifies this
      ensures Valid() && dir.current == old(dir.current)
      ensures ok ==> dir.rotations == Retained(old(dir.rotations))
      ensures Grown(log, base)
      ensures faultless ==> ok
    {
      ghost var whole := dir.rotations;
      while |dir.rotations| > ROTATION_RETENTION
        invariant Valid() && dir.current == old(dir.current)
        invariant |dir.rotations| <= |whole|
        invariant dir.rotations == whole[|whole| - |dir.rotations|..]
        invariant |whole| > ROTATION_RETENTION ==> |dir.rotations| >= ROTATION_RETENTION
        invariant |whole| <= ROTATION_RETENTION ==> |dir.rotations| == |whole|
        invariant Grown(log, base)
      {
        ok := Works();
        if !ok {
          return;
        }
        ghost var mid := reached;
        OneFewer(whole, dir.rotations, base);
        Become(dir.(rotations := dir.rotations[1..]));
        GrownBy(mid, log, base);
      }
      return true;
    }

    /** `_rotate`: rename the current file, then compress and retain. */
    method Rotate(previous: Digest, last: Stamp) returns (ok: bool)
      requires Valid() && dir.current.Some? && dir.current.value.records != []
      requires Rotation(last, codec.tag(previous), false, dir.current.value) == Rotated(codec, dir)
      modifies this
      ensures Valid() && old(reached) <= reached
      ensures ok ==> dir == Dir(Retained(Compressed(Insert(old(dir).rotations, Rotated(codec, old(dir))), Rotated(codec, old(dir)))), None)
      ensures forall i | |old(reached)| <= i < |reached| ::
        reached[i] == Renamed(codec, old(dir)) || Interim(reached[i], Renamed(codec, old(dir)))
      ensures faultless ==> (ok <==> NameFree(codec, old(dir)) && Unpaired(old(dir.rotations)))
    {
      var target := Rotation(last, codec.tag(previous), false, dir.current.value);
      var rs := dir.rotations;
      ok := Works();
      if !ok || Taken(rs, target) {
        return false;
      }
      ghost var k := InsertPosition(rs, target);
      PackableIffUnpaired(rs, target, k);
      Become(Dir(Insert(rs, target), None));
      ghost var mid := reached;
      ok := CompressDelayed(target);
      forall i | |mid| <= i < |reached| ensures Interim(reached[i], Renamed(codec, old(dir))) {
        assert InterimAt(reached, i, Renamed(codec, old(dir)));
      }
    }

    /** Open for append, write once, sync. The write may stop after any byte. */
    method WriteRecord(rec: Record) returns (ok: bool)
      requires Valid() && (dir.current.Some? ==> dir.current.value.torn == 0)
      modifies this
      ensures Valid() && old(reached) <= reached
      ensures ok ==> dir == Written(old(dir), rec)
      ensures faultless ==> ok
      ensures forall i | |old(reached)| <= i < |reached| ::
        reached[i] == Opened(old(dir)) || reached[i] == Written(old(dir), rec) || TornAppend(reached[i])
    {
      ok := Works();
      if !ok {
        return;
      }
      if dir.current.None? {
        Become(dir.(current := Some(Body([], 0))));
      }
      ok := Works();
      var count: nat :| count <= codec.width(rec) && (ok ==> count == codec.width(rec));
      if count == codec.width(rec) {
        Become(dir.(current := Some(Body(dir.current.value.records + [rec], 0))));
      } else if count > 0 {
        Become(dir.(current := Some(dir.current.value.(torn := count))));
      }
      ok := Works(); // the syncs
      ok := ok && count == codec.width(rec);
    }

    /** The rotation decision of `append`, and the rotation. */
    method MakeRoom(e: Event, rec: Record, previous: Option<Digest>, lastDay: Option<nat>) returns (ok: bool)
      requires Valid() && Accepts(codec, dir) && rec == NextRecord(codec, dir, e)
      requires previous == LastDigest(codec, History(dir)) && lastDay == LastDay(History(dir))
      modifies this
      ensures Valid() && old(reached) <= reached
      ensures ok ==> dir == BeforeWrite(codec, rotateBytes, old(dir), e)
      ensures faultless ==> (ok <==> Completable(codec, rotateBytes, old(dir), e))
      ensures Ordered(codec, rotateBytes, old(dir), e) ==> CrashLog(old(reached), old(dir), rec)
    {
      ghost var before := dir;
      var size := CurrentBytes(codec, dir);
      if size > 0 && (size + codec.width(rec) > rotateBytes || (lastDay.Some? && lastDay.value != e.stamp.day)) {
        assert Rotates(codec, rotateBytes, dir, rec);
        var recs := dir.current.value.records;
        LastOfCurrent(codec, dir);
        ok := Rotate(previous.value, recs[|recs| - 1].event.stamp);
        if Ordered(codec, rotateBytes, before, e) {
          RenamedCrashStates(codec, rotateBytes, before, e);
        }
      } else {
        ok := true;
      }
    }

    /** One append. Without faults it completes exactly if the event is appendable
        and no name it needs is taken. A failure after the write reports an error although the
        record is in the log; the crash clause says so. */
    method Append(e: Event) returns (ok: bool)
      requires Valid()
      modifies this
      ensures Valid() && old(reached) <= reached
      ensures !Appendable(codec, old(dir), e) ==> !ok && dir == old(dir) && reached == old(reached)
      ensures ok ==> Appendable(codec, old(dir), e) && dir == AppendDir(codec, rotateBytes, old(dir), e)
      ensures ok && (InCurrent(old(dir)) == [] || Belongs(codec, rotateBytes, old(dir), e)) ==>
        Extended(old(dir), dir, NextRecord(codec, old(dir), e))
      ensures ok && InCurrent(old(dir)) != [] ==>
        (InCurrent(dir) == [NextRecord(codec, old(dir), e)] <==> !Belongs(codec, rotateBytes, old(dir), e))
      ensures ok && InCurrent(old(dir)) != [] && !Belongs(codec, rotateBytes, old(dir), e) && NameSortsLast(codec, old(dir)) ==>
        Turned(codec, old(dir), dir, NextRecord(codec, old(dir), e))
      ensures faultless ==> (ok <==> Appendable(codec, old(dir), e) && Completable(codec, rotateBytes, old(dir), e))
      ensures Ordered(codec, rotateBytes, old(dir), e) ==>
        CrashLog(old(reached), old(dir), NextRecord(codec, old(dir), e))
    {
      var state := ValidateHistory();
      if state.None? || e.id in state.value.1 {
        return false;
      }
      var (previous, _, lastDay) := state.value;
      var rec := Record(e, previous);
      if codec.width(rec) > MAX_EVENT_BYTES {
        return false;
      }
      ghost var before := dir;
      ghost var log := reached;
      ok := MakeRoom(e, rec, previous, lastDay);
      if ok {
        ok := Finish(e, rec, before, log);
      }
      FileOf(before, e);
    }

    /** Which file the record goes into. */
    lemma FileOf(d: Dir, e: Event)
      requires ValidCodec(codec)
      ensures InCurrent(d) == [] || Belongs(codec, rotateBytes, d, e) ==>
        Extended(d, AppendDir(codec, rotateBytes, d, e), NextRecord(codec, d, e))
      ensures InCurrent(d) != [] ==>
        (InCurrent(AppendDir(codec, rotateBytes, d, e)) == [NextRecord(codec, d, e)] <==> !Belongs(codec, rotateBytes, d, e))
      ensures InCurrent(d) != [] && !Belongs(codec, rotateBytes, d, e) && NameSortsLast(codec, d) ==>
        Turned(codec, d, AppendDir(codec, rotateBytes, d, e), NextRecord(codec, d, e))
    {
      NewFileIff(codec, rotateBytes, d, e);
      if InCurrent(d) != [] && !Belongs(codec, rotateBytes, d, e) && NameSortsLast(codec, d) {
        NewFileIs(codec, rotateBytes, d, e);
      }
    }

    /** The write at the end of `append`. */
    method Finish(e: Event, rec: Record, ghost before: Dir, ghost log: seq<Dir>) returns (ok: bool)
      requires Valid() && Appendable(codec, before, e) && rec == NextRecord(codec, before, e)
      requires dir == BeforeWrite(codec, rotateBytes, before, e) && log <= reached
      requires Ordered(codec, rotateBytes, before, e) ==> CrashLog(log, before, rec)
      modifies this
      ensures Valid() && log <= reached
      ensures ok ==> dir == AppendDir(codec, rotateBytes, before, e)
      ensures faultless ==> ok
      ensures Ordered(codec, rotateBytes, before, e) ==> CrashLog(log, before, rec)
    {
      WrittenIsAppendDir(codec, rotateBytes, before, e);
      ghost var mid := reached;
      ok := WriteRecord(rec);
      if Ordered(codec, rotateBytes, before, e) {
        WriteCrashStates(codec, rotateBytes, before, e);
        CrashLogGrows(mid, log, before, rec);
      }
    }

    /** Every directory logged since `log` is a crash state of this append. */
    ghost predicate CrashLog(log: seq<Dir>, before: Dir, rec: Record)
      reads this
    {
      && log <= reached
      && forall i | |log| <= i < |reached| :: CrashState(codec, reached[i], before, rec)
    }

    lemma CrashLogGrows(mid: seq<Dir>, log: seq<Dir>, before: Dir, rec: Record)
      requires log <= mid <= reached
      requires forall i | |log| <= i < |mid| :: CrashState(codec, mid[i], before, rec)
      requires forall i | |mid| <= i < |reached| :: CrashState(codec, reached[i], before, rec)
      ensures CrashLog(log, before, rec)
    {
    }

    lemma GrownBy(mid: seq<Dir>, log: seq<Dir>, base: Dir)
      requires log <= mid <= reached
      requires forall i | |log| <= i < |mid| :: InterimAt(mid, i, base)
      requires forall i | |mid| <= i < |reached| :: InterimAt(reached, i, base)
      ensures Grown(log, base)
    {
      forall i | |log| <= i < |reached| ensures InterimAt(reached, i, base) {
        assert i < |mid| ==> InterimAt(mid, i, base);
      }
    }

    /** The log grew by the one or two states of compressing a file, or not at all. */
    lemma GrownByTwo(mid: seq<Dir>, log: seq<Dir>, base: Dir, copied: Dir, done: Dir)
      requires log <= mid && forall i | |log| <= i < |mid| :: InterimAt(mid, i, base)
      requires Interim(copied, base)
      requires reached == mid || reached == mid + [copied] || (reached == mid + [copied, done] && Interim(done, base))
      ensures Grown(log, base)
    {
      forall i | |mid| <= i < |reached| ensures InterimAt(reached, i, base) {
        assert reached[i] == copied || reached[i] == done;
      }
      GrownBy(mid, log, base);
    }

    /** The log grew, and every directory since is inside `_compress_delayed`. */
    ghost predicate Grown(log: seq<Dir>, base: Dir)
      reads this
    {
      && log <= reached
      && forall i | |log| <= i < |reached| :: InterimAt(reached, i, base)
    }
  }

  /** `append` goes past its checks. */
  predicate Appendable(c: Codec, d: Dir, e: Event) {
    Accepts(c, d) && e.id !in Ids(History(d)) && c.width(NextRecord(c, d, e)) <= MAX_EVENT_BYTES
  }

  /** The directory is one the sink makes, and a rotation's name would sort last. */
  predicate Ordered(c: Codec, rotateBytes: nat, d: Dir, e: Event) {
    && Regular(d)
    && (Rotates(c, rotateBytes, d, NextRecord(c, d, e)) ==> NameSortsLast(c, d))
  }

  /** Just after `os.replace` in `_rotate`. */
  function Renamed(c: Codec, d: Dir): Dir
    requires d.current.Some? && d.current.value.records != []
  {
    Dir(Insert(d.rotations, Rotated(c, d)), None)
  }

  function Opened(d: Dir): Dir {
    d.(current := Some(if d.current.Some? then d.current.value else Body([], 0)))
  }

  function Written(d: Dir, rec: Record): Dir {
    d.(current := Some(Body(Opened(d).current.value.records + [rec], 0)))
  }

  /** The directory the record is finally written into. */
  function BeforeWrite(c: Codec, rotateBytes: nat, d: Dir, e: Event): Dir {
    if Rotates(c, rotateBytes, d, NextRecord(c, d, e)) then
      Dir(Retained(Compressed(Insert(d.rotations, Rotated(c, d)), Rotated(c, d))), None)
    else
      d
  }

  lemma LastOfCurrent(c: Codec, d: Dir)
    requires d.current.Some? && d.current.value.records != []
    ensures var recs := d.current.value.records;
      LastDigest(c, History(d)) == Some(c.sha(recs[|recs| - 1]))
  {
  }

  /** Everything reached while rotating is a crash state. */
  lemma RenamedCrashStates(c: Codec, rotateBytes: nat, d: Dir, e: Event)
    requires Accepts(c, d) && Ordered(c, rotateBytes, d, e)
    requires Rotates(c, rotateBytes, d, NextRecord(c, d, e))
    ensures CrashState(c, Renamed(c, d), d, NextRecord(c, d, e))
    ensures forall x :: Interim(x, Renamed(c, d)) ==> CrashState(c, x, d, NextRecord(c, d, e))
  {
    var base := Renamed(c, d);
    RotatedGoesLast(c, d);
    assert History(base) == History(d);
    AnchorAnywhere(c, History(d), d.rotations != []);
    assert Accepts(c, base) && Regular(base);
    assert History(base) == History(base)[0..];
    forall x | Interim(x, base) ensures CrashState(c, x, d, NextRecord(c, d, e)) {
      if Packs(x.rotations, base.rotations) {
        PackedIsAccepted(c, x, base);
      } else {
        var k :| 0 <= k < |x.rotations| && CopyAt(x, k) && HasBody(base, x.rotations[k].body);
        RepeatedFileIsRefused(c, x, k);
      }
    }
  }

  lemma WrittenIsAppendDir(c: Codec, rotateBytes: nat, d: Dir, e: Event)
    requires Accepts(c, d)
    ensures Written(BeforeWrite(c, rotateBytes, d, e), NextRecord(c, d, e)) == AppendDir(c, rotateBytes, d, e)
    ensures BeforeWrite(c, rotateBytes, d, e).current.Some? ==> BeforeWrite(c, rotateBytes, d, e).current.value.torn == 0
  {
    if Rotates(c, rotateBytes, d, NextRecord(c, d, e)) {
      assert [] + [NextRecord(c, d, e)] == [NextRecord(c, d, e)];
    } else if d.current.None? {
      assert [] + [NextRecord(c, d, e)] == [NextRecord(c, d, e)];
    }
  }

  lemma TailOfExtension(recs: seq<Record>, n: nat, rec: Record)
    requires n <= |recs|
    ensures IsTail(recs[n..], recs) && IsTail(recs[n..] + [rec], recs + [rec])
  {
    assert recs[n..] + [rec] == (recs + [rec])[n..];
  }

  /** Everything reached while writing the record is a crash state. */
  lemma WriteCrashStates(c: Codec, rotateBytes: nat, d: Dir, e: Event)
    requires ValidCodec(c) && rotateBytes <= ROTATE_BYTES
    requires Appendable(c, d, e) && Ordered(c, rotateBytes, d, e)
    ensures CrashState(c, Opened(BeforeWrite(c, rotateBytes, d, e)), d, NextRecord(c, d, e))
    ensures CrashState(c, AppendDir(c, rotateBytes, d, e), d, NextRecord(c, d, e))
  {
    var rec := NextRecord(c, d, e);
    var mid := BeforeWrite(c, rotateBytes, d, e);
    var out := AppendDir(c, rotateBytes, d, e);
    WrittenIsAppendDir(c, rotateBytes, d, e);
    var n := AppendKeepsAccepted(c, rotateBytes, d, e);
    OpenedIsAccepted(c, Opened(mid), out, rec);
    assert History(Opened(mid)) == History(out)[..|History(out)| - 1] == History(d)[n..];
    TailOfExtension(History(d), n, rec);
  }

  /** Without its last record an accepted history is accepted. */
  lemma OpenedIsAccepted(c: Codec, open: Dir, out: Dir, rec: Record)
    requires ValidCodec(c) && Accepts(c, out)
    requires open.current.Some? && open.current.value.torn == 0
    requires out == open.(current := Some(Body(open.current.value.records + [rec], 0)))
    ensures Accepts(c, open)
    ensures History(out) == History(open) + [rec]
  {
    var kept := open.current.value.records;
    BytesSnoc(c, kept, rec);
    assert History(out) == History(open) + [rec];
    UnsoundStaysUnsound(c, History(open), [rec], open.rotations != []);
    assert forall i | 0 <= i < |kept| :: (kept + [rec])[i] == kept[i];
  }

  /** The directory while a compressed copy stands beside its source. */
  function CopiedAt(d: Dir, i: nat): Dir
    requires i < |d.rotations|
  {
    d.(rotations := d.rotations[..i + 1] + [d.rotations[i].(gz := true)] + d.rotations[i + 1..])
  }

  /** The listing when the compression loop has passed `i` names. */
  function Partly(base: seq<Rotation>, newest: Rotation, i: nat): seq<Rotation>
    requires i <= |base|
  {
    Compressed(base, newest)[..i] + base[i..]
  }

  lemma PartlyStep(base: seq<Rotation>, newest: Rotation, i: nat)
    requires i < |base|
    ensures Partly(base, newest, i)[i] == base[i]
    ensures Packs(Partly(base, newest, i), base) && Packs(Partly(base, newest, i + 1), base)
    ensures Partly(base, newest, i + 1) ==
      if base[i].gz || SameName(base[i], newest) then Partly(base, newest, i)
      else Partly(base, newest, i)[i := base[i].(gz := true)]
  {
  }

  lemma PartlyEnds(base: seq<Rotation>, newest: Rotation)
    ensures Partly(base, newest, 0) == base
    ensures Partly(base, newest, |base|) == Compressed(base, newest)
    ensures Packs(Compressed(base, newest), base)
  {
  }

  predicate Taken(rs: seq<Rotation>, r: Rotation) {
    exists i | 0 <= i < |rs| :: SameName(rs[i], r)
  }

  /** Nothing to compress here, or its compressed name is free. */
  predicate PackableAt(rs: seq<Rotation>, newest: Rotation, i: nat)
    requires i < |rs|
  {
    rs[i].gz || SameName(rs[i], newest) || !Taken(rs, rs[i].(gz := true))
  }

  /** Of the first `n` names. */
  predicate Packable(rs: seq<Rotation>, newest: Rotation, n: nat)
    requires n <= |rs|
  {
    n == 0 || (Packable(rs, newest, n - 1) && PackableAt(rs, newest, n - 1))
  }

  lemma {:induction false} PackableMeans(rs: seq<Rotation>, newest: Rotation, n: nat)
    requires n <= |rs|
    ensures Packable(rs, newest, n) <==> forall i | 0 <= i < n :: PackableAt(rs, newest, i)
  {
    if n > 0 {
      PackableMeans(rs, newest, n - 1);
    }
  }

  lemma {:induction false} NotPackableAt(rs: seq<Rotation>, newest: Rotation, i: nat, n: nat)
    requires i < n <= |rs| && !PackableAt(rs, newest, i)
    ensures !Packable(rs, newest, n)
  {
    if i < n - 1 {
      NotPackableAt(rs, newest, i, n - 1);
    }
  }

  lemma NextIsNoCopy(rs: seq<Rotation>, i: nat)
    requires Listed(rs) && i < |rs| && !rs[i].gz && !Taken(rs, rs[i].(gz := true))
    ensures i + 1 < |rs| ==> !SameKey(rs[i], rs[i + 1])
  {
    if i + 1 < |rs| {
      assert NameLess(rs[i], rs[i + 1]);
    }
  }

  /** The compressions before a file neither take nor free its compressed name. */
  lemma TakenIffPaired(base: seq<Rotation>, newest: Rotation, i: nat)
    requires Listed(base) && i < |base| && !base[i].gz
    ensures Taken(Partly(base, newest, i), base[i].(gz := true)) <==> Taken(base, base[i].(gz := true))
  {
    var now, packed := Partly(base, newest, i), base[i].(gz := true);
    forall j | 0 <= j < |base| ensures SameName(now[j], packed) <==> SameName(base[j], packed) {
      if j < i {
        assert NameLess(base[j], base[i]);
      }
    }
    if Taken(base, packed) {
      var j :| 0 <= j < |base| && SameName(base[j], packed);
      assert SameName(now[j], packed);
    }
  }

  lemma PackableIffUnpaired(rs: seq<Rotation>, r: Rotation, k: nat)
    requires k <= |rs| && !r.gz && !Taken(rs, r)
    requires Insert(rs, r) == rs[..k] + [r] + rs[k..]
    ensures Packable(Insert(rs, r), r, |Insert(rs, r)|) <==> Unpaired(rs)
  {
    var all := Insert(rs, r);
    PackableMeans(all, r, |all|);
    if Packable(all, r, |all|) {
      PackableIsUnpaired(rs, r, k);
    }
    if Unpaired(rs) {
      UnpairedIsPackable(rs, r, k);
    }
  }

  lemma PackableIsUnpaired(rs: seq<Rotation>, r: Rotation, k: nat)
    requires k <= |rs| && !Taken(rs, r)
    requires var all := rs[..k] + [r] + rs[k..]; forall i | 0 <= i < |all| :: PackableAt(all, r, i)
    ensures Unpaired(rs)
  {
    var all := rs[..k] + [r] + rs[k..];
    forall i, j | 0 <= i < |rs| && 0 <= j < |rs| && !rs[i].gz && rs[j].gz ensures !SameKey(rs[i], rs[j]) {
      var i', j' := if i < k then i else i + 1, if j < k then j else j + 1;
      assert all[i'] == rs[i] && all[j'] == rs[j];
      assert PackableAt(all, r, i') && !SameName(rs[i], r);
    }
  }

  lemma UnpairedIsPackable(rs: seq<Rotation>, r: Rotation, k: nat)
    requires k <= |rs| && !r.gz && Unpaired(rs)
    ensures var all := rs[..k] + [r] + rs[k..]; forall i | 0 <= i < |all| :: PackableAt(all, r, i)
  {
    var all := rs[..k] + [r] + rs[k..];
    forall i | 0 <= i < |all| ensures PackableAt(all, r, i) {
      if i != k && !all[i].gz {
        var i' := if i < k then i else i - 1;
        assert all[i] == rs[i'];
        forall j | 0 <= j < |all| ensures !SameName(all[j], all[i].(gz := true)) {
          if j != k {
            var j' := if j < k then j else j - 1;
            assert all[j] == rs[j'];
          }
        }
      }
    }
  }

  lemma CopyIsInterim(d: Dir, base: Dir, i: nat)
    requires |d.rotations| == |base.rotations| && i < |base.rotations|
    requires d.rotations[i] == base.rotations[i] && d.current == base.current
    ensures Interim(CopiedAt(d, i), base)
  {
    assert CopyAt(CopiedAt(d, i), i);
    assert HasBody(base, base.rotations[i].body);
  }

  lemma CompressingIsInterim(d: Dir, base: Dir, newest: Rotation, i: nat)
    requires i < |base.rotations| && d.current == base.current && d.rotations == Partly(base.rotations, newest, i)
    requires !d.rotations[i].gz && !SameName(d.rotations[i], newest)
    ensures Interim(CopiedAt(d, i), base)
    ensures Partly(base.rotations, newest, i + 1) == d.rotations[i := d.rotations[i].(gz := true)]
    ensures Interim(Dir(d.rotations[i := d.rotations[i].(gz := true)], d.current), base)
  {
    PartlyStep(base.rotations, newest, i);
    CopyIsInterim(d, base, i);
  }

  ghost predicate HasBody(d: Dir, b: Body) {
    exists j | 0 <= j < |d.rotations| :: d.rotations[j].body == b
  }

  ghost predicate InterimAt(log: seq<Dir>, i: nat, before: Dir)
    requires i < |log|
  {
    Interim(log[i], before)
  }

  /** Without its oldest file the listing is still the last files of `base`. */
  lemma OneFewer(whole: seq<Rotation>, rs: seq<Rotation>, base: Dir)
    requires Packs(whole, base.rotations) && 1 < |rs| <= |whole| && rs == whole[|whole| - |rs|..]
    ensures rs[1..] == whole[|whole| - |rs[1..]|..]
    ensures Interim(Dir(rs[1..], base.current), base)
  {
    assert Packs(rs[1..], base.rotations);
  }

  /** A directory inside `_compress_delayed`. */
  ghost predicate Interim(d: Dir, before: Dir) {
    && d.current == before.current
    && if Packs(d.rotations, before.rotations) then d.rotations != [] else
      exists k | 0 <= k < |d.rotations| :: CopyAt(d, k) && HasBody(before, d.rotations[k].body)
  }

  lemma ListedRemove(rs: seq<Rotation>, i: nat)
    requires Listed(rs) && i < |rs|
    ensures Listed(rs[..i] + rs[i + 1..])
  {
  }

  lemma GzIsNext(a: Rotation, b: Rotation)
    requires NameLess(a, b) && !a.gz && !SameKey(a, b)
    ensures NameLess(a.(gz := true), b)
  {
  }

  lemma NameLessTransitive(a: Rotation, b: Rotation, c: Rotation)
    requires NameLess(a, b) && NameLess(b, c)
    ensures NameLess(a, c)
  {
  }

  /** The compressed copy is listed right behind its source. */
  lemma PackedInPlace(rs: seq<Rotation>, i: nat)
    requires Listed(rs) && i < |rs| && !rs[i].gz
    requires i + 1 < |rs| ==> !SameKey(rs[i], rs[i + 1])
    ensures Insert(rs, rs[i].(gz := true)) == rs[..i + 1] + [rs[i].(gz := true)] + rs[i + 1..]
    ensures Listed(Insert(rs, rs[i].(gz := true)))
  {
    var packed := rs[i].(gz := true);
    if i + 1 < |rs| {
      GzIsNext(rs[i], rs[i + 1]);
    }
    forall j | i < j < |rs| ensures NameLess(packed, rs[j]) {
      if j > i + 1 {
        NameLessTransitive(packed, rs[i + 1], rs[j]);
      }
    }
    forall j | 0 <= j <= i ensures NameLess(rs[j], packed) {
      if j < i {
        NameLessTransitive(rs[j], rs[i], packed);
      }
    }
    InsertSplits(rs, packed, i + 1);
    InsertedIsListed(rs, packed, i + 1);
  }

  lemma ExtendIds(recs: seq<Record>, rec: Record)
    ensures Ids(recs + [rec]) == Ids(recs) + {rec.event.id}
  {
    var out := recs + [rec];
    forall x | x in Ids(recs) ensures x in Ids(out) {
      var i :| 0 <= i < |recs| && recs[i].event.id == x;
      assert out[i].event.id == x;
    }
    assert out[|recs|].event.id == rec.event.id;
  }
}
