/** What one completed `append` makes of the audit directory, and exactly when
    the result is still accepted (`FilesystemAuditSink.append`, `_rotate`,
    `_compress_delayed` in `deployment/audit.py`). */
module AuditAppend {
  import opened Wrappers
  import opened AuditChain

  /** The sink only ever rotates a nonempty file. */
  predicate Regular(d: Dir) {
    forall i | 0 <= i < |d.rotations| :: d.rotations[i].body.records != []
  }

  function CurrentBytes(c: Codec, d: Dir): nat {
    if d.current.Some? then Bytes(c, d.current.value.records) else 0
  }

  /** Size first, then the day of the newest record. */
  predicate Rotates(c: Codec, rotateBytes: nat, d: Dir, rec: Record) {
    var size := CurrentBytes(c, d);
    && size > 0
    && (size + c.width(rec) > rotateBytes
        || (LastDay(History(d)).Some? && LastDay(History(d)).value != rec.event.stamp.day))
  }

  /** The renamed current file. */
  function Rotated(c: Codec, d: Dir): Rotation
    requires d.current.Some? && d.current.value.records != []
  {
    var recs := d.current.value.records;
    var last := recs[|recs| - 1];
    Rotation(last.event.stamp, c.tag(c.sha(last)), false, d.current.value)
  }

  /** Compress every plain rotation but the one just made. */
  function Compressed(rs: seq<Rotation>, newest: Rotation): (out: seq<Rotation>)
    ensures |out| == |rs|
    ensures forall i | 0 <= i < |rs| :: out[i] == if SameName(rs[i], newest) then rs[i] else rs[i].(gz := true)
  {
    seq(|rs|, i requires 0 <= i < |rs| => if SameName(rs[i], newest) then rs[i] else rs[i].(gz := true))
  }

  function Retained(rs: seq<Rotation>): seq<Rotation> {
    if |rs| > ROTATION_RETENTION then rs[|rs| - ROTATION_RETENTION..] else rs
  }

  function NextRecord(c: Codec, d: Dir, e: Event): Record {
    Record(e, LastDigest(c, History(d)))
  }

  /** The directory after an append in which no step failed. */
  function AppendDir(c: Codec, rotateBytes: nat, d: Dir, e: Event): Dir {
    var rec := NextRecord(c, d, e);
    if Rotates(c, rotateBytes, d, rec) && d.current.Some? && d.current.value.records != [] then
      var r := Rotated(c, d);
      Dir(Retained(Compressed(Insert(d.rotations, r), r)), Some(Body([rec], 0)))
    else
      Dir(d.rotations, Some(Body((if d.current.Some? then d.current.value.records else []) + [rec], 0)))
  }

  /** The condition the code leaves to its callers' timestamps: the name the
      current file would get sorts after every rotation already there. */
  predicate NameSortsLast(c: Codec, d: Dir)
    requires d.current.Some? && d.current.value.records != []
  {
    forall i | 0 <= i < |d.rotations| :: KeyLess(d.rotations[i], Rotated(c, d))
  }

  /** No file has the name the current file would get. */
  predicate NameFree(c: Codec, d: Dir)
    requires d.current.Some? && d.current.value.records != []
  {
    forall i | 0 <= i < |d.rotations| :: !SameName(d.rotations[i], Rotated(c, d))
  }

  /** No plain file has its compressed form beside it. */
  predicate Unpaired(rs: seq<Rotation>) {
    forall i, j | 0 <= i < |rs| && 0 <= j < |rs| && !rs[i].gz && rs[j].gz :: !SameKey(rs[i], rs[j])
  }

  /** An append that rotates finds neither its new name nor a compressed name taken. */
  predicate Completable(c: Codec, rotateBytes: nat, d: Dir, e: Event) {
    Rotates(c, rotateBytes, d, NextRecord(c, d, e)) ==> NameFree(c, d) && Unpaired(d.rotations)
  }

  // ----- bookkeeping --------------------------------------------------------

  lemma {:induction false} CompressedRecords(rs: seq<Rotation>, newest: Rotation)
    ensures Records(Compressed(rs, newest)) == Records(rs)
  {
    if rs != [] {
      CompressedRecords(rs[1..], newest);
      assert Compressed(rs, newest)[1..] == Compressed(rs[1..], newest);
    }
  }

  lemma RetainedRecords(rs: seq<Rotation>) returns (n: nat)
    ensures n <= |Records(rs)| && Records(Retained(rs)) == Records(rs)[n..]
    ensures |rs| <= ROTATION_RETENTION ==> n == 0
  {
    var k := if |rs| > ROTATION_RETENTION then |rs| - ROTATION_RETENTION else 0;
    RecordsConcat(rs[..k], rs[k..]);
    assert rs == rs[..k] + rs[k..];
    n := |Records(rs[..k])|;
  }

  lemma BytesOne(c: Codec, rec: Record)
    ensures Bytes(c, [rec]) == c.width(rec)
  {
    assert [rec][..0] == [];
  }

  lemma BytesSnoc(c: Codec, recs: seq<Record>, rec: Record)
    ensures Bytes(c, recs + [rec]) == Bytes(c, recs) + c.width(rec)
  {
    assert (recs + [rec])[..|recs|] == recs;
  }

  lemma BytesPositive(c: Codec, recs: seq<Record>)
    requires ValidCodec(c)
    ensures recs != [] ==> Bytes(c, recs) > 0
  {
  }

  /** A fresh record on the end of a tail of an accepted history. */
  lemma ExtendTail(c: Codec, recs: seq<Record>, n: nat, rec: Record, anchored: bool, tailAnchored: bool)
    requires n <= |recs| && Chained(c, recs, anchored) && DistinctIds(recs)
    requires rec.previous == LastDigest(c, recs) && rec.event.id !in Ids(recs)
    requires n == 0 ==> tailAnchored == anchored
    requires n > 0 ==> tailAnchored
    ensures Chained(c, recs[n..] + [rec], tailAnchored) && DistinctIds(recs[n..] + [rec])
  {
    var out := recs[n..] + [rec];
    forall i, j | 0 <= i < j < |out| ensures out[i].event.id != out[j].event.id {
      if j == |out| - 1 {
        assert recs[n + i].event.id in Ids(recs);
      }
    }
  }

  // ----- appends keep a history acceptable ----------------------------------

  /** Where the renamed file lands. */
  lemma RotatedGoesLast(c: Codec, d: Dir)
    requires d.current.Some? && d.current.value.records != []
    requires NameSortsLast(c, d)
    ensures Insert(d.rotations, Rotated(c, d)) == d.rotations + [Rotated(c, d)]
    ensures Records(Insert(d.rotations, Rotated(c, d))) == History(d)
  {
    var rs := d.rotations;
    var r := Rotated(c, d);
    InsertSplits(rs, r, |rs|);
    assert rs[..|rs|] == rs && rs[|rs|..] == [];
    RecordsConcat(rs, [r]);
    RecordsOne(r);
  }

  /** Every file is still within the bounds `_read` and `_decode_lines` enforce. */
  lemma FilesStayReadable(c: Codec, rotateBytes: nat, d: Dir, e: Event)
    requires ValidCodec(c) && rotateBytes <= ROTATE_BYTES
    requires Accepts(c, d) && c.width(NextRecord(c, d, e)) <= MAX_EVENT_BYTES
    requires Rotates(c, rotateBytes, d, NextRecord(c, d, e)) ==> NameSortsLast(c, d)
    ensures var d' := AppendDir(c, rotateBytes, d, e);
      && (forall i | 0 <= i < |d'.rotations| :: Readable(c, d'.rotations[i].body))
      && d'.current.Some? && Readable(c, d'.current.value)
  {
    var rec := NextRecord(c, d, e);
    BytesOne(c, rec);
    if Rotates(c, rotateBytes, d, rec) {
      RotatedGoesLast(c, d);
      PackedReadable(c, d.rotations + [Rotated(c, d)], Rotated(c, d));
    } else {
      var kept := if d.current.Some? then d.current.value.records else [];
      BytesSnoc(c, kept, rec);
      BytesPositive(c, kept);
    }
  }

  lemma PackedReadable(c: Codec, rs: seq<Rotation>, r: Rotation)
    requires forall i | 0 <= i < |rs| :: Readable(c, rs[i].body)
    ensures forall i | 0 <= i < |Retained(Compressed(rs, r))| :: Readable(c, Retained(Compressed(rs, r))[i].body)
  {
  }

  /** What a rotating append keeps, as a tail of the old records. */
  lemma RotatingAppendHistory(c: Codec, rotateBytes: nat, d: Dir, e: Event) returns (n: nat)
    requires Rotates(c, rotateBytes, d, NextRecord(c, d, e)) && NameSortsLast(c, d)
    ensures n <= |History(d)|
    ensures History(AppendDir(c, rotateBytes, d, e)) == History(d)[n..] + [NextRecord(c, d, e)]
    ensures |d.rotations| < ROTATION_RETENTION ==> n == 0
    ensures 0 < |AppendDir(c, rotateBytes, d, e).rotations| <= ROTATION_RETENTION
  {
    var r := Rotated(c, d);
    var rs := Insert(d.rotations, r);
    RotatedGoesLast(c, d);
    CompressedRecords(rs, r);
    n := RetainedRecords(Compressed(rs, r));
  }

  lemma RotatingAppendRegular(c: Codec, rotateBytes: nat, d: Dir, e: Event)
    requires Regular(d)
    requires Rotates(c, rotateBytes, d, NextRecord(c, d, e)) && NameSortsLast(c, d)
    ensures Regular(AppendDir(c, rotateBytes, d, e))
  {
    RotatedGoesLast(c, d);
    PackedRegular(d.rotations + [Rotated(c, d)], Rotated(c, d));
  }

  lemma PackedRegular(rs: seq<Rotation>, r: Rotation)
    requires forall i | 0 <= i < |rs| :: rs[i].body.records != []
    ensures forall i | 0 <= i < |Retained(Compressed(rs, r))| :: Retained(Compressed(rs, r))[i].body.records != []
  {
  }

  /** An accepted history stays accepted when the new name sorts last: it loses
      a prefix of whole rotations, gains the new record, and never holds more
      than fourteen rotations after a rotation. */
  lemma AppendKeepsAccepted(c: Codec, rotateBytes: nat, d: Dir, e: Event) returns (n: nat)
    requires ValidCodec(c) && rotateBytes <= ROTATE_BYTES
    requires Accepts(c, d) && Regular(d)
    requires e.id !in Ids(History(d)) && c.width(NextRecord(c, d, e)) <= MAX_EVENT_BYTES
    requires Rotates(c, rotateBytes, d, NextRecord(c, d, e)) ==> NameSortsLast(c, d)
    ensures Accepts(c, AppendDir(c, rotateBytes, d, e)) && Regular(AppendDir(c, rotateBytes, d, e))
    ensures n <= |History(d)|
    ensures History(AppendDir(c, rotateBytes, d, e)) == History(d)[n..] + [NextRecord(c, d, e)]
    ensures !Rotates(c, rotateBytes, d, NextRecord(c, d, e)) || |d.rotations| < ROTATION_RETENTION ==> n == 0
    ensures Rotates(c, rotateBytes, d, NextRecord(c, d, e)) ==>
      |AppendDir(c, rotateBytes, d, e).rotations| <= ROTATION_RETENTION
  {
    var rec := NextRecord(c, d, e);
    var recs := History(d);
    FilesStayReadable(c, rotateBytes, d, e);
    if Rotates(c, rotateBytes, d, rec) {
      n := RotatingAppendHistory(c, rotateBytes, d, e);
      RotatingAppendRegular(c, rotateBytes, d, e);
      AnchorAnywhere(c, recs, d.rotations != []);
      ExtendTail(c, recs, n, rec, true, true);
    } else {
      n := 0;
      assert recs[0..] == recs;
      assert History(AppendDir(c, rotateBytes, d, e)) == recs + [rec];
      ExtendTail(c, recs, 0, rec, d.rotations != [], d.rotations != []);
    }
  }

  lemma AnchorAnywhere(c: Codec, recs: seq<Record>, anchored: bool)
    requires Chained(c, recs, anchored)
    ensures Chained(c, recs, true)
  {
  }

  /** A file inserted before the end leaves the last one last. */
  lemma InsertedBeforeEnd(rs: seq<Rotation>, r: Rotation, i: nat)
    requires Listed(rs) && (forall j | 0 <= j < |rs| :: !SameName(rs[j], r))
    requires i < |rs| && !r.gz && !KeyLess(rs[i], r)
    ensures rs != [] && |Insert(rs, r)| == |rs| + 1
    ensures Insert(rs, r)[|rs|] == rs[|rs| - 1]
  {
    var k := InsertPosition(rs, r);
    assert !NameLess(rs[i], r);
  }

  /** Nor does compression or retention move it. */
  lemma MisorderedKeepsOldLast(rs: seq<Rotation>, r: Rotation, i: nat)
    requires Listed(rs) && (forall j | 0 <= j < |rs| :: !SameName(rs[j], r))
    requires i < |rs| && !r.gz && !KeyLess(rs[i], r)
    ensures var out := Retained(Compressed(Insert(rs, r), r));
      out != [] && out[|out| - 1].body == rs[|rs| - 1].body
  {
    InsertedBeforeEnd(rs, r, i);
    PackedLast(Insert(rs, r), r, rs[|rs| - 1].body);
  }

  lemma PackedLast(rs: seq<Rotation>, r: Rotation, last: Body)
    requires rs != [] && rs[|rs| - 1].body == last
    ensures var out := Retained(Compressed(rs, r));
      out != [] && out[|out| - 1].body == last
  {
  }

  lemma RecordsEnd(rs: seq<Rotation>)
    requires rs != [] && rs[|rs| - 1].body.records != []
    ensures var last := rs[|rs| - 1].body.records;
      Records(rs) != [] && Records(rs)[|Records(rs)| - 1] == last[|last| - 1]
  {
    var k := |rs| - 1;
    RecordsConcat(rs[..k], [rs[k]]);
    RecordsOne(rs[k]);
    assert rs == rs[..k] + [rs[k]];
  }

  /** A record that follows the old newest rotation instead of the newest record
      breaks the chain. */
  lemma OldLastBreaksChain(c: Codec, d: Dir, rs: seq<Rotation>, rec: Record)
    requires ValidCodec(c) && DistinctIds(History(d)) && rec.previous == LastDigest(c, History(d))
    requires d.current.Some? && d.current.value.records != []
    requires d.rotations != [] && rs != [] && rs[|rs| - 1].body == d.rotations[|d.rotations| - 1].body
    requires d.rotations[|d.rotations| - 1].body.records != []
    ensures !Accepts(c, Dir(rs, Some(Body([rec], 0))))
  {
    RecordsEnd(rs);
    LastOfRotationsIsNotLast(d);
    var before := Records(rs);
    var h := History(Dir(rs, Some(Body([rec], 0))));
    assert h[|before|].previous != Some(c.sha(h[|before| - 1]));
  }

  /** And only then: an append that rotates under a name that does not sort
      last reports success and leaves a history every later append refuses. */
  lemma MisorderedNameIsFatal(c: Codec, rotateBytes: nat, d: Dir, e: Event)
    requires ValidCodec(c)
    requires Listed(d.rotations) && Accepts(c, d) && Regular(d)
    requires Rotates(c, rotateBytes, d, NextRecord(c, d, e)) && !NameSortsLast(c, d)
    requires NameFree(c, d)
    ensures !Accepts(c, AppendDir(c, rotateBytes, d, e))
  {
    var rs, r := d.rotations, Rotated(c, d);
    MisorderedPacked(c, d);
    OldLastBreaksChain(c, d, Retained(Compressed(Insert(rs, r), r)), NextRecord(c, d, e));
  }

  lemma MisorderedPacked(c: Codec, d: Dir)
    requires d.current.Some? && d.current.value.records != []
    requires Listed(d.rotations) && !NameSortsLast(c, d) && NameFree(c, d)
    ensures var out := Retained(Compressed(Insert(d.rotations, Rotated(c, d)), Rotated(c, d)));
      d.rotations != [] && out != [] && out[|out| - 1].body == d.rotations[|d.rotations| - 1].body
  {
    var i := MisorderedIndex(c, d);
    MisorderedKeepsOldLast(d.rotations, Rotated(c, d), i);
  }

  lemma MisorderedIndex(c: Codec, d: Dir) returns (i: nat)
    requires d.current.Some? && d.current.value.records != [] && !NameSortsLast(c, d)
    ensures i < |d.rotations| && !KeyLess(d.rotations[i], Rotated(c, d))
  {
    i :| 0 <= i < |d.rotations| && !KeyLess(d.rotations[i], Rotated(c, d));
  }

  /** With a nonempty current file, the newest rotation's last record is not the newest record. */
  lemma LastOfRotationsIsNotLast(d: Dir)
    requires DistinctIds(History(d))
    requires d.rotations != [] && d.rotations[|d.rotations| - 1].body.records != []
    requires d.current.Some? && d.current.value.records != []
    ensures var last := d.rotations[|d.rotations| - 1].body.records;
      last[|last| - 1] != History(d)[|History(d)| - 1]
  {
    RecordsEnd(d.rotations);
    var p := Records(d.rotations);
    assert History(d)[|p| - 1] == p[|p| - 1];
  }

  /** The exact condition, for appends whose new name is not taken. */
  lemma AppendAcceptedIff(c: Codec, rotateBytes: nat, d: Dir, e: Event)
    requires ValidCodec(c) && rotateBytes <= ROTATE_BYTES
    requires Listed(d.rotations) && Accepts(c, d) && Regular(d)
    requires e.id !in Ids(History(d)) && c.width(NextRecord(c, d, e)) <= MAX_EVENT_BYTES
    requires Rotates(c, rotateBytes, d, NextRecord(c, d, e)) ==> NameFree(c, d)
    ensures Accepts(c, AppendDir(c, rotateBytes, d, e)) <==>
      (Rotates(c, rotateBytes, d, NextRecord(c, d, e)) ==> NameSortsLast(c, d))
  {
    if Rotates(c, rotateBytes, d, NextRecord(c, d, e)) && !NameSortsLast(c, d) {
      MisorderedNameIsFatal(c, rotateBytes, d, e);
    } else {
      var _ := AppendKeepsAccepted(c, rotateBytes, d, e);
    }
  }

  // ----- when a new file begins -----------------------------------------------

  /** The records of the current file. */
  function InCurrent(d: Dir): seq<Record> {
    if d.current.Some? then d.current.value.records else []
  }

  /** The newest record is of the event's day. */
  predicate SameDay(d: Dir, e: Event) {
    History(d) != [] && History(d)[|History(d)| - 1].event.stamp.day == e.stamp.day
  }

  /** The event still belongs into the current file: same day, and room for its line. */
  predicate Belongs(c: Codec, rotateBytes: nat, d: Dir, e: Event) {
    SameDay(d, e) && Bytes(c, InCurrent(d)) + c.width(NextRecord(c, d, e)) <= rotateBytes
  }

  /** The files after an append that began no new one. */
  predicate Extended(before: Dir, after: Dir, rec: Record) {
    after.rotations == before.rotations && after.current == Some(Body(InCurrent(before) + [rec], 0))
  }

  /** The newest file last, before it the newest of the others, all compressed, fourteen files at most. */
  predicate NewestLast(rs: seq<Rotation>, newest: Rotation, out: seq<Rotation>) {
    && |out| == (if |rs| < 14 then |rs| + 1 else 14) && out[|out| - 1] == newest
    && forall i | 0 <= i < |out| - 1 :: out[i] == rs[i + (|rs| + 1 - |out|)].(gz := true)
  }

  /** The files after one that did: the old current file is the newest rotation, named after its last record. */
  predicate Turned(c: Codec, before: Dir, after: Dir, rec: Record)
    requires InCurrent(before) != []
  {
    var last := InCurrent(before)[|InCurrent(before)| - 1];
    && after.current == Some(Body([rec], 0))
    && NewestLast(before.rotations, Rotation(last.event.stamp, c.tag(c.sha(last)), false, before.current.value), after.rotations)
  }

  /** A new file begins exactly if the current one is not empty and the event does not belong into it. */
  lemma NewFileIff(c: Codec, rotateBytes: nat, d: Dir, e: Event)
    requires ValidCodec(c)
    ensures var after, rec := AppendDir(c, rotateBytes, d, e), NextRecord(c, d, e);
      && (InCurrent(d) == [] || Belongs(c, rotateBytes, d, e) ==> Extended(d, after, rec))
      && (InCurrent(d) != [] && !Belongs(c, rotateBytes, d, e) ==> InCurrent(after) == [rec])
      && (InCurrent(d) != [] ==> (InCurrent(after) == [rec] <==> !Belongs(c, rotateBytes, d, e)))
  {
    if InCurrent(d) != [] {
      RotatesIff(c, rotateBytes, d, e);
      assert |InCurrent(d) + [NextRecord(c, d, e)]| > 1;
    }
  }

  lemma NewFileIs(c: Codec, rotateBytes: nat, d: Dir, e: Event)
    requires ValidCodec(c) && InCurrent(d) != [] && !Belongs(c, rotateBytes, d, e) && NameSortsLast(c, d)
    ensures Turned(c, d, AppendDir(c, rotateBytes, d, e), NextRecord(c, d, e))
  {
    RotatesIff(c, rotateBytes, d, e);
    RotatedGoesLast(c, d);
    NewestStays(d.rotations, Rotated(c, d));
  }

  lemma RotatesIff(c: Codec, rotateBytes: nat, d: Dir, e: Event)
    requires ValidCodec(c) && InCurrent(d) != []
    ensures Rotates(c, rotateBytes, d, NextRecord(c, d, e)) <==> !Belongs(c, rotateBytes, d, e)
  {
    BytesPositive(c, InCurrent(d));
    assert History(d)[|History(d)| - 1] == InCurrent(d)[|InCurrent(d)| - 1];
  }

  lemma NewestStays(rs: seq<Rotation>, r: Rotation)
    requires forall i | 0 <= i < |rs| :: KeyLess(rs[i], r)
    ensures NewestLast(rs, r, Retained(Compressed(rs + [r], r)))
  {
    var all := rs + [r];
    forall i | 0 <= i < |rs| ensures Compressed(all, r)[i] == rs[i].(gz := true) {
      assert all[i] == rs[i] && KeyLess(rs[i], r);
    }
  }

  // ----- the listing after an append ------------------------------------------

  lemma CompressedIsListed(rs: seq<Rotation>, newest: Rotation)
    requires Listed(rs)
    requires forall i, j | 0 <= i < j < |rs| && SameKey(rs[i], rs[j]) :: SameName(rs[i], newest)
    ensures Listed(Compressed(rs, newest))
  {
    var out := Compressed(rs, newest);
    forall i, j | 0 <= i < j < |rs| ensures NameLess(out[i], out[j]) {
      assert NameLess(rs[i], rs[j]);
    }
  }

  /** A completable append leaves the names in order. */
  lemma AppendKeepsListed(c: Codec, rotateBytes: nat, d: Dir, e: Event)
    requires Listed(d.rotations) && Completable(c, rotateBytes, d, e)
    ensures Listed(AppendDir(c, rotateBytes, d, e).rotations)
  {
    if Rotates(c, rotateBytes, d, NextRecord(c, d, e)) {
      var rs, r := d.rotations, Rotated(c, d);
      var k := InsertPosition(rs, r);
      OnlyNewestIsPaired(rs, r, k);
      CompressedIsListed(Insert(rs, r), r);
    }
  }

  lemma OnlyNewestIsPaired(rs: seq<Rotation>, r: Rotation, k: nat)
    requires k <= |rs| && Listed(rs) && Unpaired(rs) && !r.gz
    requires Listed(rs[..k] + [r] + rs[k..])
    ensures var all := rs[..k] + [r] + rs[k..];
      forall i, j | 0 <= i < j < |all| && SameKey(all[i], all[j]) :: SameName(all[i], r)
  {
    var all := rs[..k] + [r] + rs[k..];
    forall i, j | 0 <= i < j < |all| && i != k ensures !SameKey(all[i], all[j]) {
      assert NameLess(all[i], all[j]);
      if j != k {
        var i', j' := if i < k then i else i - 1, if j < k then j else j - 1;
        assert all[i] == rs[i'] && all[j] == rs[j'];
      }
    }
  }
}
