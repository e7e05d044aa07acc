/** The hash chain of the deployment audit log and the history a directory of
    log files holds (`deployment/audit.py`).

    SHA-256, the canonical encoding's length and the twelve-digit name tag are
    parameters: a `Codec`. Every result holds for all codecs whose hash is
    injective, which is the usual collision-freedom assumption. */
module AuditChain {
  import opened Wrappers

  const MAX_EVENT_BYTES: nat := 16 * 1024
  const ROTATE_BYTES: nat := 10 * 1024 * 1024
  const ROTATION_RETENTION: nat := 14

  type Digest = nat

  /** A second-precision UTC timestamp. The fixed-width text form sorts exactly
      like this pair. */
  datatype Stamp = Stamp(day: nat, second: nat)

  datatype Event = Event(id: string, stamp: Stamp, detail: string)

  datatype Record = Record(event: Event, previous: Option<Digest>)

  datatype Codec = Codec(sha: Record -> Digest, width: Record -> nat, tag: Digest -> nat)

  ghost predicate ValidCodec(c: Codec) {
    && (forall x, y :: c.sha(x) == c.sha(y) ==> x == y)
    && (forall x :: 0 < c.width(x))
  }

  /** One log file: complete lines, then `torn` bytes of a line without its newline. */
  datatype Body = Body(records: seq<Record>, torn: nat)

  /** `events.jsonl.<stamp>.<tag>` with or without `.gz`; compression is lossless. */
  datatype Rotation = Rotation(stamp: Stamp, tag: nat, gz: bool, body: Body)

  /** The audit directory: its rotations in file-name order, then `events.jsonl`. */
  datatype Dir = Dir(rotations: seq<Rotation>, current: Option<Body>)

  // ----- file names ---------------------------------------------------------

  predicate StampLess(a: Stamp, b: Stamp) {
    a.day < b.day || (a.day == b.day && a.second < b.second)
  }

  /** Order of the names without the `.gz` suffix. */
  predicate KeyLess(a: Rotation, b: Rotation) {
    StampLess(a.stamp, b.stamp) || (a.stamp == b.stamp && a.tag < b.tag)
  }

  predicate SameKey(a: Rotation, b: Rotation) {
    a.stamp == b.stamp && a.tag == b.tag
  }

  predicate SameName(a: Rotation, b: Rotation) {
    SameKey(a, b) && a.gz == b.gz
  }

  predicate NameLess(a: Rotation, b: Rotation) {
    KeyLess(a, b) || (SameKey(a, b) && !a.gz && b.gz)
  }

  /** Seconds since the first day. */
  function Instant(s: Stamp): nat {
    86400 * s.day + s.second
  }

  /** Names sort by time, then by their tag, and a plain file before its compressed form. */
  lemma NameLessIff(a: Rotation, b: Rotation)
    requires a.stamp.second < 86400 && b.stamp.second < 86400
    ensures StampLess(a.stamp, b.stamp) <==> Instant(a.stamp) < Instant(b.stamp)
    ensures Instant(a.stamp) == Instant(b.stamp) ==>
      (NameLess(a, b) <==> a.tag < b.tag || (a.tag == b.tag && !a.gz && b.gz))
    ensures Instant(a.stamp) != Instant(b.stamp) ==> (NameLess(a, b) <==> Instant(a.stamp) < Instant(b.stamp))
  {
  }

  predicate Listed(rs: seq<Rotation>) {
    forall i, j {:trigger NameLess(rs[i], rs[j])} | 0 <= i < j < |rs| :: NameLess(rs[i], rs[j])
  }

  /** The listing after a file appears under the name of `r`. */
  function Insert(rs: seq<Rotation>, r: Rotation): seq<Rotation> {
    if rs == [] || NameLess(r, rs[0]) then [r] + rs else [rs[0]] + Insert(rs[1..], r)
  }

  lemma {:induction false} InsertSplits(rs: seq<Rotation>, r: Rotation, k: nat)
    requires k <= |rs|
    requires forall i | 0 <= i < k :: NameLess(rs[i], r)
    requires k < |rs| ==> NameLess(r, rs[k])
    ensures Insert(rs, r) == rs[..k] + [r] + rs[k..]
  {
    if k == 0 {
      assert rs[..0] + [r] + rs[0..] == [r] + rs;
    } else {
      assert NameLess(rs[0], r);
      InsertSplits(rs[1..], r, k - 1);
      assert [rs[0]] + (rs[1..][..k - 1] + [r] + rs[1..][k - 1..]) == rs[..k] + [r] + rs[k..];
    }
  }

  lemma InsertedIsListed(rs: seq<Rotation>, r: Rotation, k: nat)
    requires Listed(rs) && k <= |rs|
    requires forall i | 0 <= i < k :: NameLess(rs[i], r)
    requires forall i | k <= i < |rs| :: NameLess(r, rs[i])
    ensures Listed(rs[..k] + [r] + rs[k..])
  {
    var all := rs[..k] + [r] + rs[k..];
    forall i, j | 0 <= i < j < |all| ensures NameLess(all[i], all[j]) {
      if i != k && j != k {
        var i', j' := if i < k then i else i - 1, if j < k then j else j - 1;
        assert all[i] == rs[i'] && all[j] == rs[j'] && NameLess(rs[i'], rs[j']);
      }
    }
  }

  /** Where a new name goes in a listing that does not hold it yet. */
  lemma {:induction false} InsertPosition(rs: seq<Rotation>, r: Rotation) returns (k: nat)
    requires Listed(rs)
    requires forall i | 0 <= i < |rs| :: !SameName(rs[i], r)
    ensures k <= |rs|
    ensures forall i | 0 <= i < k :: NameLess(rs[i], r)
    ensures forall i | k <= i < |rs| :: NameLess(r, rs[i])
    ensures Insert(rs, r) == rs[..k] + [r] + rs[k..]
    ensures Listed(Insert(rs, r))
  {
    k := 0;
    while k < |rs| && NameLess(rs[k], r)
      invariant k <= |rs|
      invariant forall i | 0 <= i < k :: NameLess(rs[i], r)
    {
      k := k + 1;
    }
    forall i | k <= i < |rs| ensures NameLess(r, rs[i]) {
      assert i == k || NameLess(rs[k], rs[i]);
    }
    InsertSplits(rs, r, k);
    InsertedIsListed(rs, r, k);
  }

  // ----- what a history holds -----------------------------------------------

  function Records(rs: seq<Rotation>): seq<Record> {
    if rs == [] then [] else rs[0].body.records + Records(rs[1..])
  }

  function History(d: Dir): seq<Record> {
    Records(d.rotations) + (if d.current.Some? then d.current.value.records else [])
  }

  lemma Regroup(x: seq<Record>, y: seq<Record>, z: seq<Record>)
    ensures x + (y + z) == (x + y) + z
  {
  }

  lemma {:induction false} RecordsConcat(a: seq<Rotation>, b: seq<Rotation>)
    ensures Records(a + b) == Records(a) + Records(b)
  {
    if a == [] {
      assert a + b == b;
    } else {
      RecordsConcat(a[1..], b);
      assert (a + b)[1..] == a[1..] + b && (a + b)[0] == a[0];
      Regroup(a[0].body.records, Records(a[1..]), Records(b));
    }
  }

  lemma RecordsOne(r: Rotation)
    ensures Records([r]) == r.body.records
  {
    assert [r][1..] == [];
  }

  function Bytes(c: Codec, recs: seq<Record>): nat {
    if recs == [] then 0 else Bytes(c, recs[..|recs| - 1]) + c.width(recs[|recs| - 1])
  }

  /** `_read` and `_decode_lines` accept the file. */
  predicate Readable(c: Codec, b: Body) {
    && b.torn == 0
    && (forall i | 0 <= i < |b.records| :: c.width(b.records[i]) <= MAX_EVENT_BYTES)
    && Bytes(c, b.records) <= ROTATE_BYTES + MAX_EVENT_BYTES
  }

  predicate DistinctIds(recs: seq<Record>) {
    forall i, j | 0 <= i < j < |recs| :: recs[i].event.id != recs[j].event.id
  }

  /** Every record names the hash of the one before it. Only a history whose
      first file is a rotation may begin in the middle of the chain. */
  predicate Chained(c: Codec, recs: seq<Record>, anchored: bool) {
    && (forall i | 0 < i < |recs| :: recs[i].previous == Some(c.sha(recs[i - 1])))
    && (recs != [] && !anchored ==> recs[0].previous == None)
  }

  predicate Accepts(c: Codec, d: Dir) {
    && (forall i | 0 <= i < |d.rotations| :: Readable(c, d.rotations[i].body))
    && (d.current.Some? ==> Readable(c, d.current.value))
    && Chained(c, History(d), d.rotations != [])
    && DistinctIds(History(d))
  }

  function LastDigest(c: Codec, recs: seq<Record>): Option<Digest> {
    if recs == [] then None else Some(c.sha(recs[|recs| - 1]))
  }

  function Ids(recs: seq<Record>): set<string> {
    set i | 0 <= i < |recs| :: recs[i].event.id
  }

  function LastDay(recs: seq<Record>): Option<nat> {
    if recs == [] then None else Some(recs[|recs| - 1].event.stamp.day)
  }

  // ----- the chain determines its content -----------------------------------

  /** Two accepted chains of one length with one final hash agree record by
      record, so the final hash seals every earlier record and their order. */
  lemma {:induction false} ChainDeterminesContent(c: Codec, xs: seq<Record>, ys: seq<Record>, ax: bool, ay: bool)
    requires ValidCodec(c)
    requires Chained(c, xs, ax) && Chained(c, ys, ay)
    requires |xs| == |ys| && LastDigest(c, xs) == LastDigest(c, ys)
    ensures xs == ys
  {
    if xs != [] {
      var n := |xs| - 1;
      assert xs[n] == ys[n];
      if n > 0 {
        ChainDeterminesContent(c, xs[..n], ys[..n], ax, ay);
      }
      assert xs == xs[..n] + [xs[n]] && ys == ys[..n] + [ys[n]];
    }
  }

  /** Replacing or reordering records below the last one without
      changing the last one breaks the chain. */
  lemma TamperingIsDetected(c: Codec, d: Dir, forged: Dir)
    requires ValidCodec(c) && Accepts(c, d)
    requires |History(forged)| == |History(d)| && History(forged) != History(d)
    requires LastDigest(c, History(forged)) == LastDigest(c, History(d))
    ensures !Accepts(c, forged)
  {
    if Accepts(c, forged) {
      ChainDeterminesContent(c, History(d), History(forged), d.rotations != [], forged.rotations != []);
    }
  }

  /** Two anchored histories whose retained prefixes differ: the shorter one is
      the tail of the longer one. */
  lemma {:induction false} RetainedTailIsDetermined(c: Codec, xs: seq<Record>, ys: seq<Record>, ax: bool, ay: bool)
    requires ValidCodec(c)
    requires Chained(c, xs, ax) && Chained(c, ys, ay)
    requires |xs| <= |ys| && LastDigest(c, xs) == LastDigest(c, ys)
    ensures xs == ys[|ys| - |xs|..]
  {
    if xs != [] {
      var tail := ys[|ys| - |xs|..];
      assert Chained(c, tail, true);
      assert Chained(c, xs, true);
      ChainDeterminesContent(c, xs, tail, true, true);
    }
  }
}
