/** Whole runs of the audit sink: what any number of appends keeps. */
module AuditRun {
  import opened Wrappers
  import opened AuditChain
  import opened AuditAppend
  import opened AuditSink

  /** The sink's append completes (`FilesystemAuditSink.Append`, nothing failing). */
  predicate Admits(c: Codec, rotateBytes: nat, d: Dir, e: Event) {
    Appendable(c, d, e) && Completable(c, rotateBytes, d, e)
  }

  /** A refused append leaves the directory as it is. No run below meets an
      appendable event that finds a name taken (`NamesAreFree`). */
  function Attempt(c: Codec, rotateBytes: nat, d: Dir, e: Event): Dir {
    if Admits(c, rotateBytes, d, e) then AppendDir(c, rotateBytes, d, e) else d
  }

  function Run(c: Codec, rotateBytes: nat, d: Dir, events: seq<Event>): Dir {
    if events == [] then d
    else Attempt(c, rotateBytes, Run(c, rotateBytes, d, events[..|events| - 1]), events[|events| - 1])
  }

  /** The events a run lets in. */
  function Admitted(c: Codec, rotateBytes: nat, d: Dir, events: seq<Event>): seq<Event> {
    if events == [] then []
    else
      var init := events[..|events| - 1];
      var e := events[|events| - 1];
      Admitted(c, rotateBytes, d, init) + (if Admits(c, rotateBytes, Run(c, rotateBytes, d, init), e) then [e] else [])
  }

  function EventsOf(recs: seq<Record>): (es: seq<Event>)
    ensures |es| == |recs|
    ensures forall i | 0 <= i < |recs| :: es[i] == recs[i].event
  {
    seq(|recs|, i requires 0 <= i < |recs| => recs[i].event)
  }

  const EMPTY: Dir := Dir([], None)

  ghost predicate EventTail(tail: seq<Event>, whole: seq<Event>) {
    exists n: nat :: n <= |whole| && tail == whole[n..]
  }

  predicate Later(events: seq<Event>) {
    forall i, j | 0 <= i < j < |events| :: StampLess(events[i].stamp, events[j].stamp)
  }

  /** Named for its last record, as `_rotate` does it. */
  predicate NamedForLast(c: Codec, r: Rotation) {
    var recs := r.body.records;
    recs != [] && var last := recs[|recs| - 1]; r.stamp == last.event.stamp && r.tag == c.tag(c.sha(last))
  }

  predicate AllNamed(c: Codec, rs: seq<Rotation>) {
    forall i | 0 <= i < |rs| :: NamedForLast(c, rs[i])
  }

  /** Each rotation is named for its last record; time increases. */
  predicate InOrder(c: Codec, d: Dir) {
    && AllNamed(c, d.rotations)
    && Later(EventsOf(History(d)))
  }

  /** The number of records up to the end of file `i`. */
  lemma LastRecordIndex(rs: seq<Rotation>, i: nat) returns (k: nat)
    requires i < |rs| && rs[i].body.records != []
    ensures k == |Records(rs[..i + 1])| - 1 && k < |Records(rs)|
    ensures Records(rs)[k] == rs[i].body.records[|rs[i].body.records| - 1]
    ensures |Records(rs[..i])| <= k
  {
    RecordsEnd(rs[..i + 1]);
    RecordsConcat(rs[..i], [rs[i]]);
    RecordsOne(rs[i]);
    assert rs[..i + 1] == rs[..i] + [rs[i]];
    RecordsConcat(rs[..i + 1], rs[i + 1..]);
    assert rs == rs[..i + 1] + rs[i + 1..];
    k := |Records(rs[..i + 1])| - 1;
  }

  lemma LastRecordsApart(rs: seq<Rotation>, i: nat, j: nat) returns (k: nat, m: nat)
    requires i < j < |rs| && rs[i].body.records != [] && rs[j].body.records != []
    ensures k < m < |Records(rs)|
    ensures Records(rs)[k] == rs[i].body.records[|rs[i].body.records| - 1]
    ensures Records(rs)[m] == rs[j].body.records[|rs[j].body.records| - 1]
  {
    k := LastRecordIndex(rs, i);
    m := LastRecordIndex(rs, j);
    RecordsConcat(rs[..i + 1], rs[i + 1..j]);
    assert rs[..j] == rs[..i + 1] + rs[i + 1..j];
  }

  // ----- names that are still free ------------------------------------------

  /** The name a file ending in this record gets. */
  function NameOf(c: Codec, rec: Record): (Stamp, nat) {
    (rec.event.stamp, c.tag(c.sha(rec)))
  }

  predicate NamesApart(c: Codec, recs: seq<Record>) {
    forall i, j | 0 <= i < j < |recs| :: NameOf(c, recs[i]) != NameOf(c, recs[j])
  }

  /** Twelve hexadecimal digits of the hash tell the hashes apart. */
  ghost predicate TagsDiffer(c: Codec) {
    forall x, y :: c.tag(x) == c.tag(y) ==> x == y
  }

  lemma LaterNamesApart(c: Codec, recs: seq<Record>)
    requires Later(EventsOf(recs))
    ensures NamesApart(c, recs)
  {
    var es := EventsOf(recs);
    forall i, j | 0 <= i < j < |recs| ensures NameOf(c, recs[i]) != NameOf(c, recs[j]) {
      assert StampLess(es[i].stamp, es[j].stamp);
    }
  }

  lemma TagsNamesApart(c: Codec, recs: seq<Record>)
    requires ValidCodec(c) && TagsDiffer(c) && DistinctIds(recs)
    ensures NamesApart(c, recs)
  {
  }

  lemma KeysApart(c: Codec, rs: seq<Rotation>, i: nat, j: nat)
    requires i < j < |rs| && AllNamed(c, rs) && NamesApart(c, Records(rs))
    ensures !SameKey(rs[i], rs[j])
  {
    assert NamedForLast(c, rs[i]) && NamedForLast(c, rs[j]);
    var k, m := LastRecordsApart(rs, i, j);
    assert NameOf(c, Records(rs)[k]) != NameOf(c, Records(rs)[m]);
  }

  /** The rotations and the file the current one would become. */
  lemma WithRotated(c: Codec, d: Dir)
    requires AllNamed(c, d.rotations) && d.current.Some? && d.current.value.records != []
    ensures AllNamed(c, d.rotations + [Rotated(c, d)])
    ensures Records(d.rotations + [Rotated(c, d)]) == History(d)
  {
    var all := d.rotations + [Rotated(c, d)];
    forall i | 0 <= i < |all| ensures NamedForLast(c, all[i]) {
      if i < |d.rotations| {
        assert NamedForLast(c, d.rotations[i]);
      }
    }
    RecordsConcat(d.rotations, [Rotated(c, d)]);
    RecordsOne(Rotated(c, d));
  }

  /** No append finds a name taken as long as no two records would give one name. */
  lemma NamesAreFree(c: Codec, rotateBytes: nat, d: Dir, e: Event)
    requires AllNamed(c, d.rotations) && NamesApart(c, History(d))
    ensures Completable(c, rotateBytes, d, e)
  {
    if Rotates(c, rotateBytes, d, NextRecord(c, d, e)) {
      var rs, r := d.rotations, Rotated(c, d);
      var all := rs + [r];
      WithRotated(c, d);
      forall i | 0 <= i < |rs| ensures !SameKey(rs[i], r) {
        KeysApart(c, all, i, |rs|);
        assert all[i] == rs[i];
      }
      forall i, j | 0 <= i < |rs| && 0 <= j < |rs| && !rs[i].gz && rs[j].gz ensures !SameKey(rs[i], rs[j]) {
        KeysApart(c, all, if i < j then i else j, if i < j then j else i);
        assert all[i] == rs[i] && all[j] == rs[j];
      }
    }
  }

  /** Strictly later timestamps are enough for the name condition. */
  lemma InOrderSortsLast(c: Codec, d: Dir)
    requires InOrder(c, d) && d.current.Some? && d.current.value.records != []
    ensures NameSortsLast(c, d)
  {
    var h := EventsOf(History(d));
    forall i | 0 <= i < |d.rotations| ensures KeyLess(d.rotations[i], Rotated(c, d)) {
      assert NamedForLast(c, d.rotations[i]);
      var k := LastRecordIndex(d.rotations, i);
      assert History(d)[k] == Records(d.rotations)[k];
      assert StampLess(h[k].stamp, h[|h| - 1].stamp);
    }
  }

  lemma LaterTail(es: seq<Event>, n: nat, e: Event)
    requires n <= |es| && Later(es)
    requires es != [] ==> StampLess(es[|es| - 1].stamp, e.stamp)
    ensures Later(es[n..] + [e])
  {
    var out := es[n..] + [e];
    forall i, j | 0 <= i < j < |out| ensures StampLess(out[i].stamp, out[j].stamp) {
      if j == |out| - 1 {
        assert StampLess(es[|es| - 1].stamp, e.stamp);
        assert es[n + i] == es[|es| - 1] || StampLess(es[n + i].stamp, es[|es| - 1].stamp);
      }
    }
  }

  lemma PackingKeepsNames(c: Codec, rs: seq<Rotation>, r: Rotation)
    requires AllNamed(c, rs) && NamedForLast(c, r)
    ensures AllNamed(c, Retained(Compressed(rs + [r], r))) && |Retained(Compressed(rs + [r], r))| <= ROTATION_RETENTION
  {
    var packed := Compressed(rs + [r], r);
    forall i | 0 <= i < |packed| ensures NamedForLast(c, packed[i]) {
      assert i < |rs| ==> NamedForLast(c, rs[i]);
    }
  }

  lemma AppendKeepsNames(c: Codec, rotateBytes: nat, d: Dir, e: Event)
    requires AllNamed(c, d.rotations)
    requires Rotates(c, rotateBytes, d, NextRecord(c, d, e)) ==> NameSortsLast(c, d)
    ensures var d' := AppendDir(c, rotateBytes, d, e);
      AllNamed(c, d'.rotations) && (|d.rotations| <= ROTATION_RETENTION ==> |d'.rotations| <= ROTATION_RETENTION)
  {
    if Rotates(c, rotateBytes, d, NextRecord(c, d, e)) {
      RotatedGoesLast(c, d);
      PackingKeepsNames(c, d.rotations, Rotated(c, d));
    }
  }

  lemma EventsOfTail(recs: seq<Record>, n: nat, rec: Record)
    requires n <= |recs|
    ensures EventsOf(recs[n..] + [rec]) == EventsOf(recs)[n..] + [rec.event]
  {
  }

  lemma NamedIsRegular(c: Codec, d: Dir)
    requires AllNamed(c, d.rotations)
    ensures Regular(d)
  {
    forall i | 0 <= i < |d.rotations| ensures d.rotations[i].body.records != [] {
      assert NamedForLast(c, d.rotations[i]);
    }
  }

  /** One append by a later event keeps the directory acceptable and in order. */
  lemma LaterAppend(c: Codec, rotateBytes: nat, d: Dir, e: Event) returns (n: nat)
    requires ValidCodec(c) && rotateBytes <= ROTATE_BYTES
    requires InOrder(c, d) && Appendable(c, d, e)
    requires History(d) != [] ==> StampLess(History(d)[|History(d)| - 1].event.stamp, e.stamp)
    ensures Completable(c, rotateBytes, d, e)
    ensures Accepts(c, AppendDir(c, rotateBytes, d, e)) && InOrder(c, AppendDir(c, rotateBytes, d, e))
    ensures n <= |History(d)|
    ensures EventsOf(History(AppendDir(c, rotateBytes, d, e))) == EventsOf(History(d))[n..] + [e]
    ensures |d.rotations| <= ROTATION_RETENTION ==> |AppendDir(c, rotateBytes, d, e).rotations| <= ROTATION_RETENTION
  {
    NamedIsRegular(c, d);
    LaterNamesApart(c, History(d));
    NamesAreFree(c, rotateBytes, d, e);
    if Rotates(c, rotateBytes, d, NextRecord(c, d, e)) {
      InOrderSortsLast(c, d);
    }
    AppendKeepsNames(c, rotateBytes, d, e);
    n := AppendKeepsAccepted(c, rotateBytes, d, e);
    EventsOfTail(History(d), n, NextRecord(c, d, e));
    LaterTail(EventsOf(History(d)), n, e);
  }

  /** What holds of the directory after the admitted events `let`. */
  ghost predicate Holds(c: Codec, d: Dir, let: seq<Event>) {
    && Accepts(c, d) && InOrder(c, d) && |d.rotations| <= ROTATION_RETENTION
    && EventTail(EventsOf(History(d)), let)
    && (History(d) == [] <==> let == [])
  }

  lemma HoldsStep(c: Codec, rotateBytes: nat, d: Dir, let: seq<Event>, e: Event)
    requires ValidCodec(c) && rotateBytes <= ROTATE_BYTES
    requires Holds(c, d, let) && Appendable(c, d, e)
    requires let != [] ==> StampLess(let[|let| - 1].stamp, e.stamp)
    ensures Completable(c, rotateBytes, d, e)
    ensures Holds(c, AppendDir(c, rotateBytes, d, e), let + [e])
  {
    var es := EventsOf(History(d));
    if es != [] {
      TailLast(es, let);
    }
    var n := LaterAppend(c, rotateBytes, d, e);
    TailSnoc(es, let, n, e);
  }

  lemma TailLast(tail: seq<Event>, whole: seq<Event>)
    requires EventTail(tail, whole) && tail != []
    ensures whole != [] && tail[|tail| - 1] == whole[|whole| - 1]
  {
  }

  lemma TailSnoc(tail: seq<Event>, whole: seq<Event>, n: nat, e: Event)
    requires EventTail(tail, whole) && n <= |tail|
    ensures EventTail(tail[n..] + [e], whole + [e])
  {
    var k: nat :| k <= |whole| && tail == whole[k..];
    assert tail[n..] + [e] == (whole + [e])[k + n..];
  }

  lemma {:induction false} AdmittedIsPartOf(c: Codec, rotateBytes: nat, d: Dir, events: seq<Event>)
    requires events != [] && Later(events)
    ensures var let := Admitted(c, rotateBytes, d, events[..|events| - 1]);
      let != [] ==> StampLess(let[|let| - 1].stamp, events[|events| - 1].stamp)
  {
    var init := events[..|events| - 1];
    if init != [] {
      AdmittedLastIn(c, rotateBytes, d, init);
    }
  }

  lemma {:induction false} AdmittedLastIn(c: Codec, rotateBytes: nat, d: Dir, events: seq<Event>)
    ensures var let := Admitted(c, rotateBytes, d, events);
      let != [] ==> let[|let| - 1] in events
  {
    if events != [] {
      AdmittedLastIn(c, rotateBytes, d, events[..|events| - 1]);
    }
  }

  /** Every run over strictly later timestamps, from an empty directory, with
      refused events in between: the history is accepted after each append, is
      exactly the newest part of the admitted events in order, and never spans
      more than fourteen rotations. */
  lemma {:induction false} RunStaysAccepted(c: Codec, rotateBytes: nat, events: seq<Event>)
    requires ValidCodec(c) && rotateBytes <= ROTATE_BYTES
    requires Later(events)
    ensures Holds(c, Run(c, rotateBytes, EMPTY, events), Admitted(c, rotateBytes, EMPTY, events))
  {
    if events == [] {
      assert EventsOf(History(EMPTY)) == [][0..];
    } else {
      var m := |events| - 1;
      RunStaysAccepted(c, rotateBytes, events[..m]);
      var d := Run(c, rotateBytes, EMPTY, events[..m]);
      var let := Admitted(c, rotateBytes, EMPTY, events[..m]);
      if Appendable(c, d, events[m]) {
        AdmittedIsPartOf(c, rotateBytes, EMPTY, events);
        HoldsStep(c, rotateBytes, d, let, events[m]);
      } else {
        assert let + [] == let;
      }
    }
  }

  /** A refused history is refused by every later append, whatever is appended. */
  lemma {:induction false} RefusedForever(c: Codec, rotateBytes: nat, d: Dir, events: seq<Event>)
    requires !Accepts(c, d)
    ensures Run(c, rotateBytes, d, events) == d && Admitted(c, rotateBytes, d, events) == []
  {
    if events != [] {
      RefusedForever(c, rotateBytes, d, events[..|events| - 1]);
    }
  }

  // ----- runs whose timestamps are in no order --------------------------------

  /** What holds after the admitted events `let`, whatever their timestamps, as
      long as the history is accepted. */
  ghost predicate Traced(c: Codec, d: Dir, let: seq<Event>) {
    && Listed(d.rotations) && AllNamed(c, d.rotations)
    && EventTail(EventsOf(History(d)), let)
  }

  lemma TracedStep(c: Codec, rotateBytes: nat, d: Dir, let: seq<Event>, e: Event)
    requires ValidCodec(c) && TagsDiffer(c) && rotateBytes <= ROTATE_BYTES
    requires Traced(c, d, let) && Appendable(c, d, e)
    ensures Completable(c, rotateBytes, d, e)
    ensures Accepts(c, AppendDir(c, rotateBytes, d, e)) ==> Traced(c, AppendDir(c, rotateBytes, d, e), let + [e])
  {
    NamedIsRegular(c, d);
    TagsNamesApart(c, History(d));
    NamesAreFree(c, rotateBytes, d, e);
    AppendAcceptedIff(c, rotateBytes, d, e);
    if Accepts(c, AppendDir(c, rotateBytes, d, e)) {
      AppendKeepsListed(c, rotateBytes, d, e);
      AppendKeepsNames(c, rotateBytes, d, e);
      var n := AppendKeepsAccepted(c, rotateBytes, d, e);
      EventsOfTail(History(d), n, NextRecord(c, d, e));
      TailSnoc(EventsOf(History(d)), let, n, e);
    }
  }

  /** Any run at all: as long as the history is accepted it is exactly the newest
      part of the admitted events, and every appendable event completes. */
  lemma {:induction false} AcceptedRunIsTail(c: Codec, rotateBytes: nat, events: seq<Event>)
    requires ValidCodec(c) && TagsDiffer(c) && rotateBytes <= ROTATE_BYTES
    requires Accepts(c, Run(c, rotateBytes, EMPTY, events))
    ensures Traced(c, Run(c, rotateBytes, EMPTY, events), Admitted(c, rotateBytes, EMPTY, events))
  {
    if events == [] {
      assert EventsOf(History(EMPTY)) == [][0..];
    } else {
      var m := |events| - 1;
      var d := Run(c, rotateBytes, EMPTY, events[..m]);
      var let := Admitted(c, rotateBytes, EMPTY, events[..m]);
      assert Accepts(c, d);
      AcceptedRunIsTail(c, rotateBytes, events[..m]);
      if Appendable(c, d, events[m]) {
        TracedStep(c, rotateBytes, d, let, events[m]);
      } else {
        assert let + [] == let;
      }
    }
  }

  lemma RunSnoc(c: Codec, rotateBytes: nat, d: Dir, events: seq<Event>, e: Event)
    ensures Run(c, rotateBytes, d, events + [e]) == Attempt(c, rotateBytes, Run(c, rotateBytes, d, events), e)
    ensures Admitted(c, rotateBytes, d, events + [e]) == Admitted(c, rotateBytes, d, events) +
      (if Admits(c, rotateBytes, Run(c, rotateBytes, d, events), e) then [e] else [])
  {
    assert (events + [e])[..|events|] == events;
  }

  /** The directory after a first event. */
  function Begun(first: Event): Dir {
    Dir([], Some(Body([Record(first, None)], 0)))
  }

  /** And after a second one of another day. */
  function Turned(c: Codec, first: Event, second: Event): Dir {
    var one := Record(first, None);
    Dir([Rotation(first.stamp, c.tag(c.sha(one)), false, Body([one], 0))],
        Some(Body([Record(second, Some(c.sha(one)))], 0)))
  }

  lemma BeginsAccepted(c: Codec, rotateBytes: nat, first: Event)
    requires ValidCodec(c) && rotateBytes <= ROTATE_BYTES
    requires forall rec: Record | rec.event == first :: c.width(rec) <= MAX_EVENT_BYTES
    ensures Admits(c, rotateBytes, EMPTY, first) && AppendDir(c, rotateBytes, EMPTY, first) == Begun(first)
    ensures Accepts(c, Begun(first))
  {
    assert NextRecord(c, EMPTY, first) == Record(first, None);
    assert [] + [Record(first, None)] == [Record(first, None)];
    var _ := AppendKeepsAccepted(c, rotateBytes, EMPTY, first);
  }

  lemma BegunTurns(c: Codec, rotateBytes: nat, first: Event, second: Event)
    requires ValidCodec(c) && first.stamp.day != second.stamp.day
    ensures History(Begun(first)) == [Record(first, None)]
    ensures Rotates(c, rotateBytes, Begun(first), NextRecord(c, Begun(first), second))
    ensures AppendDir(c, rotateBytes, Begun(first), second) == Turned(c, first, second)
  {
    var d, one := Begun(first), Record(first, None);
    assert History(d) == [one];
    BytesOne(c, one);
    var r := Rotated(c, d);
    assert Retained(Compressed(Insert([], r), r)) == [r];
  }

  lemma TurnsAccepted(c: Codec, rotateBytes: nat, first: Event, second: Event)
    requires ValidCodec(c) && rotateBytes <= ROTATE_BYTES && Accepts(c, Begun(first))
    requires first.stamp.day != second.stamp.day && first.id != second.id
    requires forall rec: Record | rec.event == second :: c.width(rec) <= MAX_EVENT_BYTES
    ensures Admits(c, rotateBytes, Begun(first), second)
    ensures AppendDir(c, rotateBytes, Begun(first), second) == Turned(c, first, second)
    ensures Accepts(c, Turned(c, first, second))
  {
    BegunTurns(c, rotateBytes, first, second);
    assert Ids(History(Begun(first))) == {first.id};
    var _ := AppendKeepsAccepted(c, rotateBytes, Begun(first), second);
  }

  lemma TurnedRotates(c: Codec, rotateBytes: nat, first: Event, second: Event, next: Event)
    requires ValidCodec(c) && second.stamp.day < first.stamp.day && next.stamp.day != second.stamp.day
    ensures var d := Turned(c, first, second);
      && Regular(d) && Listed(d.rotations)
      && Ids(History(d)) <= {first.id, second.id}
      && Rotates(c, rotateBytes, d, NextRecord(c, d, next)) && Completable(c, rotateBytes, d, next)
      && !NameSortsLast(c, d) && NameFree(c, d)
  {
    var d := Turned(c, first, second);
    var one, two := Record(first, None), d.current.value.records[0];
    RecordsOne(d.rotations[0]);
    assert History(d) == [one, two];
    BytesOne(c, two);
    assert !KeyLess(d.rotations[0], Rotated(c, d));
  }

  /** The ids of a history that is the newest part of the admitted events. */
  lemma IdsOfTail(h: seq<Record>, let: seq<Event>, id: string)
    requires EventTail(EventsOf(h), let)
    ensures |h| <= |let|
    ensures id !in Ids(h) <==> forall j | |let| - |h| <= j < |let| :: let[j].id != id
  {
    var n: nat :| n <= |let| && EventsOf(h) == let[n..];
    forall j | n <= j < |let| ensures let[j].id in Ids(h) {
      assert EventsOf(h)[j - n] == let[j];
      assert h[j - n].event == let[j];
    }
    if id in Ids(h) {
      var i :| 0 <= i < |h| && h[i].event.id == id;
      assert EventsOf(h)[i] == let[n + i];
    }
  }

  lemma FreshAdmits(c: Codec, rotateBytes: nat, d: Dir, e: Event)
    requires Accepts(c, d) && AllNamed(c, d.rotations) && NamesApart(c, History(d))
    requires c.width(NextRecord(c, d, e)) <= MAX_EVENT_BYTES
    ensures Admits(c, rotateBytes, d, e) <==> e.id !in Ids(History(d))
  {
    NamesAreFree(c, rotateBytes, d, e);
  }

  /** Exactly the ids of the retained events are refused: the last ones admitted. */
  lemma IdAdmittedIff(c: Codec, rotateBytes: nat, events: seq<Event>, e: Event)
    requires ValidCodec(c) && TagsDiffer(c) && rotateBytes <= ROTATE_BYTES
    requires Accepts(c, Run(c, rotateBytes, EMPTY, events))
    requires c.width(NextRecord(c, Run(c, rotateBytes, EMPTY, events), e)) <= MAX_EVENT_BYTES
    ensures var let, h := Admitted(c, rotateBytes, EMPTY, events), History(Run(c, rotateBytes, EMPTY, events));
      && |h| <= |let|
      && (Admits(c, rotateBytes, Run(c, rotateBytes, EMPTY, events), e) <==>
          forall j | |let| - |h| <= j < |let| :: let[j].id != e.id)
  {
    AcceptedRunIsTail(c, rotateBytes, events);
    var d := Run(c, rotateBytes, EMPTY, events);
    TagsNamesApart(c, History(d));
    FreshAdmits(c, rotateBytes, d, e);
    IdsOfTail(History(d), Admitted(c, rotateBytes, EMPTY, events), e.id);
  }

  /** So an id is let in again only after retention dropped its first record. */
  lemma RepeatedIdWasDropped(c: Codec, rotateBytes: nat, events: seq<Event>, e: Event, i: nat)
    requires ValidCodec(c) && TagsDiffer(c) && rotateBytes <= ROTATE_BYTES
    requires Admits(c, rotateBytes, Run(c, rotateBytes, EMPTY, events), e)
    requires i < |Admitted(c, rotateBytes, EMPTY, events)| && Admitted(c, rotateBytes, EMPTY, events)[i].id == e.id
    ensures i + |History(Run(c, rotateBytes, EMPTY, events))| < |Admitted(c, rotateBytes, EMPTY, events)|
  {
    IdAdmittedIff(c, rotateBytes, events, e);
  }

  /** The rotation an admitted event causes takes the last name. */
  predicate InNameOrder(c: Codec, rotateBytes: nat, d: Dir, e: Event) {
    Admits(c, rotateBytes, d, e) && Rotates(c, rotateBytes, d, NextRecord(c, d, e)) ==> NameSortsLast(c, d)
  }

  predicate AllInNameOrder(c: Codec, rotateBytes: nat, events: seq<Event>) {
    forall m | 0 <= m < |events| :: InNameOrder(c, rotateBytes, Run(c, rotateBytes, EMPTY, events[..m]), events[m])
  }

  /** A run leaves an accepted history if and only if every rotation on the way took the last name. */
  lemma {:induction false} RunAcceptedIff(c: Codec, rotateBytes: nat, events: seq<Event>)
    requires ValidCodec(c) && TagsDiffer(c) && rotateBytes <= ROTATE_BYTES
    ensures Accepts(c, Run(c, rotateBytes, EMPTY, events)) <==> AllInNameOrder(c, rotateBytes, events)
  {
    if events == [] {
      assert History(EMPTY) == [];
    } else {
      var m := |events| - 1;
      RunAcceptedIff(c, rotateBytes, events[..m]);
      NameOrderSnoc(c, rotateBytes, events, m);
      LastAcceptedIff(c, rotateBytes, events[..m], events[m]);
    }
  }

  lemma NameOrderSnoc(c: Codec, rotateBytes: nat, events: seq<Event>, m: nat)
    requires m + 1 == |events|
    ensures AllInNameOrder(c, rotateBytes, events) <==>
      AllInNameOrder(c, rotateBytes, events[..m]) && InNameOrder(c, rotateBytes, Run(c, rotateBytes, EMPTY, events[..m]), events[m])
  {
    forall i | 0 <= i < m ensures events[..m][..i] == events[..i] && events[..m][i] == events[i] {
    }
    if AllInNameOrder(c, rotateBytes, events[..m])
      && InNameOrder(c, rotateBytes, Run(c, rotateBytes, EMPTY, events[..m]), events[m])
    {
      forall i | 0 <= i < |events| ensures InNameOrder(c, rotateBytes, Run(c, rotateBytes, EMPTY, events[..i]), events[i]) {
        if i < m {
          assert InNameOrder(c, rotateBytes, Run(c, rotateBytes, EMPTY, events[..m][..i]), events[..m][i]);
        }
      }
    }
    if AllInNameOrder(c, rotateBytes, events) {
      forall i | 0 <= i < m
        ensures InNameOrder(c, rotateBytes, Run(c, rotateBytes, EMPTY, events[..m][..i]), events[..m][i])
      {
        assert InNameOrder(c, rotateBytes, Run(c, rotateBytes, EMPTY, events[..i]), events[i]);
      }
    }
  }

  lemma LastAcceptedIff(c: Codec, rotateBytes: nat, init: seq<Event>, e: Event)
    requires ValidCodec(c) && TagsDiffer(c) && rotateBytes <= ROTATE_BYTES
    ensures var d := Run(c, rotateBytes, EMPTY, init);
      Accepts(c, Attempt(c, rotateBytes, d, e)) <==> Accepts(c, d) && InNameOrder(c, rotateBytes, d, e)
  {
    var d := Run(c, rotateBytes, EMPTY, init);
    if Admits(c, rotateBytes, d, e) {
      AcceptedRunIsTail(c, rotateBytes, init);
      NamedIsRegular(c, d);
      AppendAcceptedIff(c, rotateBytes, d, e);
    }
  }

  // ----- an id that comes back ----------------------------------------------------

  function Name(i: nat): string {
    seq(i, _ => 'x')
  }

  /** One event a day, each with its own id. */
  function Daily(n: nat): (es: seq<Event>)
    ensures |es| == n && Later(es)
    ensures forall i | 0 <= i < n :: es[i] == Event(Name(i), Stamp(i, 0), "")
  {
    seq(n, i requires 0 <= i < n => Event(Name(i), Stamp(i, 0), ""))
  }

  predicate Single(rs: seq<Rotation>) {
    forall i | 0 <= i < |rs| :: |rs[i].body.records| == 1
  }

  lemma {:induction false} SingleRecords(rs: seq<Rotation>)
    requires Single(rs)
    ensures |Records(rs)| == |rs|
  {
    if rs != [] {
      SingleRecords(rs[1..]);
    }
  }

  /** The directory after `n` days: one record a file, as many files as retention allows. */
  predicate AfterDays(d: Dir, n: nat) {
    && Single(d.rotations) && |d.rotations| == (if n <= ROTATION_RETENTION then n - 1 else ROTATION_RETENTION)
    && d.current.Some? && |d.current.value.records| == 1
  }

  lemma NextDay(c: Codec, rotateBytes: nat, d: Dir, n: nat, e: Event)
    requires ValidCodec(c) && n > 0 && AfterDays(d, n) && InOrder(c, d)
    requires d.current.value.records[0].event.stamp.day != e.stamp.day
    ensures AfterDays(AppendDir(c, rotateBytes, d, e), n + 1)
  {
    var r := Rotated(c, d);
    InOrderSortsLast(c, d);
    RotatedGoesLast(c, d);
    BytesPositive(c, d.current.value.records);
    LastOfDay(d);
    assert Rotates(c, rotateBytes, d, NextRecord(c, d, e));
    PackedSingles(d.rotations + [r], r);
  }

  lemma LastOfDay(d: Dir)
    requires d.current.Some? && |d.current.value.records| == 1
    ensures LastDay(History(d)) == Some(d.current.value.records[0].event.stamp.day)
  {
  }

  lemma PackedSingles(rs: seq<Rotation>, r: Rotation)
    requires Single(rs)
    ensures var out := Retained(Compressed(rs, r));
      Single(out) && |out| == if |rs| <= ROTATION_RETENTION then |rs| else ROTATION_RETENTION
  {
  }

  lemma DayStep(c: Codec, rotateBytes: nat, d: Dir, n: nat, let: seq<Event>, e: Event)
    requires ValidCodec(c) && rotateBytes <= ROTATE_BYTES && n > 0 && let != []
    requires Holds(c, d, let) && AfterDays(d, n)
    requires let[|let| - 1].stamp.day < e.stamp.day && e.id !in Ids(History(d))
    requires c.width(NextRecord(c, d, e)) <= MAX_EVENT_BYTES
    ensures Admits(c, rotateBytes, d, e) && AfterDays(AppendDir(c, rotateBytes, d, e), n + 1)
  {
    TailLast(EventsOf(History(d)), let);
    var _ := LaterAppend(c, rotateBytes, d, e);
    NextDay(c, rotateBytes, d, n, e);
  }

  lemma FirstDay(c: Codec, rotateBytes: nat)
    requires ValidCodec(c) && rotateBytes <= ROTATE_BYTES
    requires forall rec: Record | rec.event.detail == "" :: c.width(rec) <= MAX_EVENT_BYTES
    ensures AfterDays(Run(c, rotateBytes, EMPTY, Daily(1)), 1)
    ensures Admitted(c, rotateBytes, EMPTY, Daily(1)) == Daily(1)
  {
    var e := Daily(1)[0];
    assert Daily(1) == [e];
    OneStep(c, rotateBytes, e);
  }

  lemma RunOne(c: Codec, rotateBytes: nat, e: Event)
    ensures Run(c, rotateBytes, EMPTY, [e]) == Attempt(c, rotateBytes, EMPTY, e)
    ensures Admitted(c, rotateBytes, EMPTY, [e]) == if Admits(c, rotateBytes, EMPTY, e) then [e] else []
  {
    RunSnoc(c, rotateBytes, EMPTY, [], e);
    assert [] + [e] == [e];
  }

  lemma OneStep(c: Codec, rotateBytes: nat, e: Event)
    requires ValidCodec(c) && rotateBytes <= ROTATE_BYTES
    requires forall rec: Record | rec.event == e :: c.width(rec) <= MAX_EVENT_BYTES
    ensures Run(c, rotateBytes, EMPTY, [e]) == Begun(e) && Admitted(c, rotateBytes, EMPTY, [e]) == [e]
  {
    BeginsAccepted(c, rotateBytes, e);
    RunOne(c, rotateBytes, e);
  }

  lemma AnotherDay(c: Codec, rotateBytes: nat, n: nat)
    requires ValidCodec(c) && rotateBytes <= ROTATE_BYTES && n > 0
    requires forall rec: Record | rec.event.detail == "" :: c.width(rec) <= MAX_EVENT_BYTES
    requires AfterDays(Run(c, rotateBytes, EMPTY, Daily(n)), n)
    requires Admitted(c, rotateBytes, EMPTY, Daily(n)) == Daily(n)
    ensures AfterDays(Run(c, rotateBytes, EMPTY, Daily(n + 1)), n + 1)
    ensures Admitted(c, rotateBytes, EMPTY, Daily(n + 1)) == Daily(n + 1)
  {
    var d, e := Run(c, rotateBytes, EMPTY, Daily(n)), Daily(n + 1)[n];
    assert Daily(n + 1) == Daily(n) + [e];
    RunStaysAccepted(c, rotateBytes, Daily(n));
    OwnName(n);
    IdsOfTail(History(d), Daily(n), e.id);
    DayStep(c, rotateBytes, d, n, Daily(n), e);
    RunSnoc(c, rotateBytes, EMPTY, Daily(n), e);
  }

  lemma OwnName(n: nat)
    ensures forall j | 0 <= j < n :: Daily(n)[j].id != Name(n)
  {
    forall j | 0 <= j < n ensures Daily(n)[j].id != Name(n) {
      assert |Name(j)| != |Name(n)|;
    }
  }

  lemma FirstName(n: nat)
    ensures forall j | 0 < j < n :: Daily(n)[j].id != Name(0)
  {
    forall j | 0 < j < n ensures Daily(n)[j].id != Name(0) {
      assert |Name(j)| != |Name(0)|;
    }
  }

  lemma {:induction false} DaysPass(c: Codec, rotateBytes: nat, n: nat)
    requires ValidCodec(c) && rotateBytes <= ROTATE_BYTES && n > 0
    requires forall rec: Record | rec.event.detail == "" :: c.width(rec) <= MAX_EVENT_BYTES
    ensures AfterDays(Run(c, rotateBytes, EMPTY, Daily(n)), n)
    ensures Admitted(c, rotateBytes, EMPTY, Daily(n)) == Daily(n)
  {
    if n == 1 {
      FirstDay(c, rotateBytes);
    } else {
      DaysPass(c, rotateBytes, n - 1);
      AnotherDay(c, rotateBytes, n - 1);
    }
  }

  /** It happens: on the seventeenth day the id of the first is let in again. */
  lemma DroppedIdReturns(c: Codec, rotateBytes: nat)
    requires ValidCodec(c) && rotateBytes <= ROTATE_BYTES
    requires forall rec: Record | rec.event.detail == "" :: c.width(rec) <= MAX_EVENT_BYTES
    ensures var again := Event(Daily(16)[0].id, Stamp(16, 0), "");
      Admitted(c, rotateBytes, EMPTY, Daily(16) + [again]) == Daily(16) + [again]
  {
    var again := Event(Daily(16)[0].id, Stamp(16, 0), "");
    var d := Run(c, rotateBytes, EMPTY, Daily(16));
    DaysPass(c, rotateBytes, 16);
    RunStaysAccepted(c, rotateBytes, Daily(16));
    SingleRecords(d.rotations);
    FirstName(16);
    IdsOfTail(History(d), Daily(16), again.id);
    DayStep(c, rotateBytes, d, 16, Daily(16), again);
    RunSnoc(c, rotateBytes, EMPTY, Daily(16), again);
  }

  /** Timestamps out of order are reachable and fatal: after a first event, one
      of an earlier day and one of yet another day are both written, and from
      then on every append is refused. */
  lemma EarlierDayIsFatal(c: Codec, rotateBytes: nat, first: Event, earlier: Event, next: Event)
    requires ValidCodec(c) && rotateBytes <= ROTATE_BYTES
    requires earlier.stamp.day < first.stamp.day && next.stamp.day != earlier.stamp.day
    requires first.id != earlier.id && next.id !in {first.id, earlier.id}
    requires forall rec: Record | rec.event in {first, earlier, next} :: c.width(rec) <= MAX_EVENT_BYTES
    ensures Admitted(c, rotateBytes, EMPTY, [first, earlier, next]) == [first, earlier, next]
    ensures !Accepts(c, Run(c, rotateBytes, EMPTY, [first, earlier, next]))
  {
    BeginsAccepted(c, rotateBytes, first);
    TurnsAccepted(c, rotateBytes, first, earlier);
    TurnedIsFatal(c, rotateBytes, first, earlier, next);
    ThreeSteps(c, rotateBytes, first, Begun(first), earlier, Turned(c, first, earlier), next);
  }

  lemma TurnedIsFatal(c: Codec, rotateBytes: nat, first: Event, earlier: Event, next: Event)
    requires ValidCodec(c) && Accepts(c, Turned(c, first, earlier))
    requires earlier.stamp.day < first.stamp.day && next.stamp.day != earlier.stamp.day
    requires next.id !in {first.id, earlier.id}
    requires forall rec: Record | rec.event == next :: c.width(rec) <= MAX_EVENT_BYTES
    ensures Admits(c, rotateBytes, Turned(c, first, earlier), next)
    ensures !Accepts(c, AppendDir(c, rotateBytes, Turned(c, first, earlier), next))
  {
    TurnedRotates(c, rotateBytes, first, earlier, next);
    MisorderedNameIsFatal(c, rotateBytes, Turned(c, first, earlier), next);
  }

  lemma ThreeSteps(c: Codec, rotateBytes: nat, a: Event, one: Dir, b: Event, two: Dir, e: Event)
    requires Admits(c, rotateBytes, EMPTY, a) && AppendDir(c, rotateBytes, EMPTY, a) == one
    requires Admits(c, rotateBytes, one, b) && AppendDir(c, rotateBytes, one, b) == two
    requires Admits(c, rotateBytes, two, e)
    ensures Run(c, rotateBytes, EMPTY, [a, b, e]) == AppendDir(c, rotateBytes, two, e)
    ensures Admitted(c, rotateBytes, EMPTY, [a, b, e]) == [a, b, e]
  {
    RunSnoc(c, rotateBytes, EMPTY, [], a);
    RunSnoc(c, rotateBytes, EMPTY, [a], b);
    RunSnoc(c, rotateBytes, EMPTY, [a, b], e);
    assert [] + [a] == [a] && [a] + [b] == [a, b] && [a, b] + [e] == [a, b, e];
  }
}
