/** The signed release evidence: a compressed archive of exactly ten named files
    is read as a stream, bounded in every direction, and only six of the files
    are kept (`deployment/analytics_signed_release_consumer.py`). */
module EvidenceArchive {
  import opened Wrappers
  import opened Ustar

  const MAX_ARCHIVE: nat := 67108864
  const MAX_EVIDENCE: nat := 4194304
  const MAX_SCANNER: nat := 134217728
  const MAX_UNCOMPRESSED: nat := 293601280
  const PIECE: nat := 65536
  const CONTIGUOUS: nat := '7' as nat

  /** The names that are kept and those only hashed, the reading of one header
      block, and the hash. */
  datatype Form = Form(evidence: set<Bytes>, scanner: set<Bytes>, decode: Bytes -> Option<Header>, sha: Bytes -> nat)

  predicate Closed(f: Form) {
    f.evidence !! f.scanner
  }

  // ----- what the stream holds ------------------------------------------------

  /** No member here: a short or zero block, or none that decodes. */
  predicate Ends(f: Form, raw: Bytes) {
    |raw| < BLOCK || raw[..BLOCK] == Zeros(BLOCK) || f.decode(raw[..BLOCK]).None?
  }

  /** The length of a member with its padding. */
  function Span(h: Header): (r: nat)
    ensures r >= BLOCK + h.size
  {
    BLOCK + h.size + Padding(h.size)
  }

  /** The members up to the end, unless one is cut short. */
  function Walk(f: Form, raw: Bytes): Option<seq<Member>>
    decreases |raw|
  {
    if Ends(f, raw) then Some([])
    else
      var h := f.decode(raw[..BLOCK]).value;
      if |raw| < Span(h) then None
      else
        var rest := Walk(f, raw[Span(h)..]);
        if rest.None? then None else Some([Member(h, raw[BLOCK..BLOCK + h.size])] + rest.value)
  }

  function Total(ms: seq<Member>): nat {
    if ms == [] then 0 else Total(ms[..|ms| - 1]) + ms[|ms| - 1].header.size
  }

  function Names(ms: seq<Member>): set<Bytes> {
    set i | 0 <= i < |ms| :: FullName(ms[i].header)
  }

  predicate Distinct(ms: seq<Member>) {
    forall i, j | 0 <= i < j < |ms| :: FullName(ms[i].header) != FullName(ms[j].header)
  }

  /** A regular, nonempty file of a known name within the limit of its kind. */
  predicate Fine(f: Form, h: Header) {
    && (h.kind == REGULAR || h.kind == 0 || h.kind == CONTIGUOUS)
    && (FullName(h) in f.evidence || FullName(h) in f.scanner)
    && 0 < h.size <= if FullName(h) in f.scanner then MAX_SCANNER else MAX_EVIDENCE
  }

  /** Every file once and nothing else. */
  predicate Complete(f: Form, ms: seq<Member>) {
    && (forall i | 0 <= i < |ms| :: Fine(f, ms[i].header))
    && Distinct(ms) && Names(ms) == f.evidence + f.scanner
  }

  /** `content` is what the archive of `size` bytes decompresses to, `whole` if it
      does so without an error. */
  predicate Accepts(f: Form, size: nat, content: Bytes, whole: bool) {
    && 0 < size <= MAX_ARCHIVE && whole && |content| <= MAX_UNCOMPRESSED
    && Walk(f, content).Some? && Complete(f, Walk(f, content).value)
  }

  /** The kept files. */
  function Evidence(f: Form, ms: seq<Member>): map<Bytes, Bytes> {
    if ms == [] then map[]
    else
      var m, before := ms[|ms| - 1], Evidence(f, ms[..|ms| - 1]);
      if FullName(m.header) in f.scanner then before else before[FullName(m.header) := m.raw]
  }

  /** The hashes of the others. */
  function Hashes(f: Form, ms: seq<Member>): map<Bytes, nat> {
    if ms == [] then map[]
    else
      var m, before := ms[|ms| - 1], Hashes(f, ms[..|ms| - 1]);
      if FullName(m.header) in f.scanner then before[FullName(m.header) := f.sha(m.raw)] else before
  }

  lemma {:induction false} WalkStep(f: Form, ms: seq<Member>, m: Member)
    ensures Evidence(f, ms + [m]) ==
      if FullName(m.header) in f.scanner then Evidence(f, ms) else Evidence(f, ms)[FullName(m.header) := m.raw]
    ensures Hashes(f, ms + [m]) ==
      if FullName(m.header) in f.scanner then Hashes(f, ms)[FullName(m.header) := f.sha(m.raw)] else Hashes(f, ms)
    ensures Total(ms + [m]) == Total(ms) + m.header.size
    ensures Names(ms + [m]) == Names(ms) + {FullName(m.header)}
  {
    assert (ms + [m])[..|ms|] == ms && (ms + [m])[|ms|] == m;
    NamesSnoc(ms, m);
  }

  lemma NamesSnoc(ms: seq<Member>, m: Member)
    ensures Names(ms + [m]) == Names(ms) + {FullName(m.header)}
  {
    var all := ms + [m];
    forall n | n in Names(ms) ensures n in Names(all) {
      var i :| 0 <= i < |ms| && FullName(ms[i].header) == n;
      assert all[i] == ms[i];
    }
    assert all[|ms|] == m;
  }

  /** The two maps hold the names read, each in the map of its kind. */
  lemma {:induction false} KeysAreNames(f: Form, ms: seq<Member>)
    ensures Evidence(f, ms).Keys == Names(ms) - f.scanner
    ensures Hashes(f, ms).Keys == Names(ms) * f.scanner
  {
    if ms != [] {
      var init, m := ms[..|ms| - 1], ms[|ms| - 1];
      KeysAreNames(f, init);
      assert ms == init + [m];
      WalkStep(f, init, m);
    }
  }

  /** What the maps hold under the name of a member. */
  lemma {:induction false} LookUp(f: Form, ms: seq<Member>, i: nat)
    requires i < |ms| && Distinct(ms)
    ensures var n := FullName(ms[i].header);
      if n in f.scanner then n in Hashes(f, ms) && Hashes(f, ms)[n] == f.sha(ms[i].raw)
      else n in Evidence(f, ms) && Evidence(f, ms)[n] == ms[i].raw
  {
    if i < |ms| - 1 {
      LookUp(f, ms[..|ms| - 1], i);
    }
  }

  /** The order of the files in the archive does not matter. */
  lemma OrderDoesNotMatter(f: Form, ms: seq<Member>, ms': seq<Member>)
    requires Distinct(ms) && Distinct(ms') && multiset(ms) == multiset(ms')
    ensures Evidence(f, ms) == Evidence(f, ms') && Hashes(f, ms) == Hashes(f, ms')
    ensures Complete(f, ms) <==> Complete(f, ms')
  {
    SameFiles(f, ms, ms');
    SameFiles(f, ms', ms);
    KeysAreNames(f, ms);
    KeysAreNames(f, ms');
    assert Names(ms) == Names(ms');
    if Complete(f, ms) {
      CompleteTravels(f, ms, ms');
    }
    if Complete(f, ms') {
      CompleteTravels(f, ms', ms);
    }
    SameMap(Evidence(f, ms), Evidence(f, ms'));
    SameMap(Hashes(f, ms), Hashes(f, ms'));
  }

  lemma SameMap<V>(a: map<Bytes, V>, b: map<Bytes, V>)
    requires a.Keys == b.Keys && forall n | n in a :: n in b && b[n] == a[n]
    ensures a == b
  {
  }

  lemma CompleteTravels(f: Form, ms: seq<Member>, ms': seq<Member>)
    requires Distinct(ms') && Names(ms) == Names(ms') && Complete(f, ms)
    requires forall i | 0 <= i < |ms'| :: ms'[i] in ms
    ensures Complete(f, ms')
  {
    forall i | 0 <= i < |ms'| ensures Fine(f, ms'[i].header) {
      var j :| 0 <= j < |ms| && ms[j] == ms'[i];
    }
  }

  lemma SameFiles(f: Form, ms: seq<Member>, ms': seq<Member>)
    requires Distinct(ms) && Distinct(ms') && multiset(ms) == multiset(ms')
    ensures Names(ms) <= Names(ms')
    ensures forall i | 0 <= i < |ms| :: ms[i] in ms'
    ensures forall n | n in Evidence(f, ms) :: n in Evidence(f, ms') && Evidence(f, ms')[n] == Evidence(f, ms)[n]
    ensures forall n | n in Hashes(f, ms) :: n in Hashes(f, ms') && Hashes(f, ms')[n] == Hashes(f, ms)[n]
  {
    forall i | 0 <= i < |ms| ensures ms[i] in ms' {
      assert ms[i] in multiset(ms');
    }
    KeysAreNames(f, ms);
    forall n | n in Names(ms)
      ensures n in Names(ms')
      ensures n in Evidence(f, ms) ==> n in Evidence(f, ms') && Evidence(f, ms')[n] == Evidence(f, ms)[n]
      ensures n in Hashes(f, ms) ==> n in Hashes(f, ms') && Hashes(f, ms')[n] == Hashes(f, ms)[n]
    {
      var i :| 0 <= i < |ms| && FullName(ms[i].header) == n;
      var j :| 0 <= j < |ms'| && ms'[j] == ms[i];
      LookUp(f, ms, i);
      LookUp(f, ms', j);
    }
  }

  // ----- what a written archive holds ------------------------------------------

  /** Header blocks are read as they are written. */
  ghost predicate Standard(f: Form) {
    forall b: Bytes | |b| == 512 :: f.decode(b) == Decode(b)
  }

  lemma WalkNext(f: Form, raw: Bytes, head: Bytes, h: Header, data: Bytes, pad: Bytes, rest: Bytes)
    requires raw == head + data + pad + rest && |head| == BLOCK && head != Zeros(BLOCK)
    requires f.decode(head) == Some(h) && h.size == |data| && |pad| == Padding(|data|)
    ensures Walk(f, raw) == if Walk(f, rest).None? then None else Some([Member(h, data)] + Walk(f, rest).value)
  {
    assert raw[..BLOCK] == head;
    assert raw[BLOCK..BLOCK + |data|] == data;
    assert raw[BLOCK + |data| + |pad|..] == rest;
  }

  lemma WalkBlock(f: Form, m: Member, rest: Bytes)
    requires Standard(f) && Consistent(m)
    ensures Walk(f, Block(m) + rest) == if Walk(f, rest).None? then None else Some([m] + Walk(f, rest).value)
  {
    var head, pad := Encode(m.header), Zeros(Padding(|m.raw|));
    EncodeDecodes(m.header);
    EncodeIs(m.header);
    assert head[257..265][0] == head[257] != Zeros(BLOCK)[257];
    assert f.decode(head) == Some(m.header);
    WalkNext(f, Block(m) + rest, head, m.header, m.raw, pad, rest);
  }

  lemma {:induction false} WalkBlocks(f: Form, ms: seq<Member>, rest: Bytes)
    requires Standard(f) && AllConsistent(ms)
    ensures Walk(f, Blocks(ms) + rest) == if Walk(f, rest).None? then None else Some(ms + Walk(f, rest).value)
  {
    if ms == [] {
      assert Blocks(ms) + rest == rest;
      assert Walk(f, rest).Some? ==> [] + Walk(f, rest).value == Walk(f, rest).value;
    } else {
      var n := |ms| - 1;
      var tail := Block(ms[n]) + rest;
      Regroup(Blocks(ms[..n]), Block(ms[n]), rest);
      WalkBlocks(f, ms[..n], tail);
      WalkBlock(f, ms[n], rest);
      if Walk(f, rest).Some? {
        Snoc(ms, Walk(f, rest).value);
      }
    }
  }

  /** The members of a written archive are found one by one. */
  lemma WalkArchive(f: Form, ms: seq<Member>)
    requires Standard(f) && AllConsistent(ms)
    ensures Walk(f, Archive(ms)) == Some(ms)
  {
    var end := Ending(|Blocks(ms)|);
    assert end[..BLOCK] == Zeros(BLOCK) by {
      assert forall i | 0 <= i < BLOCK :: end[i] in end;
    }
    assert Ends(f, end) && Walk(f, end) == Some([]);
    WalkBlocks(f, ms, end);
    assert ms + [] == ms;
  }

  /** A regular file with content, of a kept or a hashed name, within 4 or 128 MiB. */
  predicate Admitted(f: Form, m: Member) {
    var name := FullName(m.header);
    && m.header.kind in {48, 0, 55} && m.raw != []
    && ((name in f.evidence && |m.raw| <= 4194304) || (name in f.scanner && |m.raw| <= 134217728))
  }

  /** Every name has a file, and no two files have one name. */
  ghost predicate OnceEach(f: Form, ms: seq<Member>) {
    && (forall i | 0 <= i < |ms| :: Admitted(f, ms[i]))
    && (forall i, j | 0 <= i < j < |ms| :: FullName(ms[i].header) != FullName(ms[j].header))
    && forall n | n in f.evidence || n in f.scanner :: exists i | 0 <= i < |ms| :: FullName(ms[i].header) == n
  }

  /** The kept contents and the hashes of the others, under exactly their names. */
  predicate Holds(f: Form, ms: seq<Member>, r: (map<Bytes, Bytes>, map<Bytes, nat>)) {
    && r.0.Keys == f.evidence && r.1.Keys == f.scanner
    && forall i | 0 <= i < |ms| :: var n := FullName(ms[i].header);
      if n in f.scanner then n in r.1 && r.1[n] == f.sha(ms[i].raw) else n in r.0 && r.0[n] == ms[i].raw
  }

  lemma AdmittedIsFine(f: Form, m: Member)
    requires Closed(f) && Consistent(m)
    ensures Admitted(f, m) <==> Fine(f, m.header)
  {
  }

  /** Over all archives that can be written: taken exactly if every file is there once, and what it then gives. */
  lemma ArchiveTaken(f: Form, size: nat, ms: seq<Member>, whole: bool)
    requires Closed(f) && Standard(f) && AllConsistent(ms)
    ensures var content := Archive(ms);
      && Walk(f, content) == Some(ms)
      && (Accepts(f, size, content, whole) <==>
        0 < size <= 67108864 && whole && |content| <= 293601280 && OnceEach(f, ms))
      && (OnceEach(f, ms) ==> Holds(f, ms, (Evidence(f, ms), Hashes(f, ms))))
  {
    WalkArchive(f, ms);
    CompleteIffOnceEach(f, ms);
    if OnceEach(f, ms) {
      OnceEachHolds(f, ms);
    }
  }

  lemma CompleteIffOnceEach(f: Form, ms: seq<Member>)
    requires Closed(f) && AllConsistent(ms)
    ensures Complete(f, ms) <==> OnceEach(f, ms)
  {
    forall i | 0 <= i < |ms| ensures Admitted(f, ms[i]) <==> Fine(f, ms[i].header) {
      assert Consistent(ms[i]);
      AdmittedIsFine(f, ms[i]);
    }
    if OnceEach(f, ms) {
      assert Names(ms) == f.evidence + f.scanner;
    }
    if Complete(f, ms) {
      forall n | n in f.evidence || n in f.scanner ensures exists i | 0 <= i < |ms| :: FullName(ms[i].header) == n {
        assert n in Names(ms);
      }
    }
  }

  lemma OnceEachHolds(f: Form, ms: seq<Member>)
    requires Closed(f) && AllConsistent(ms) && OnceEach(f, ms)
    ensures Holds(f, ms, (Evidence(f, ms), Hashes(f, ms)))
  {
    CompleteIffOnceEach(f, ms);
    KeysAreNames(f, ms);
    forall i | 0 <= i < |ms|
      ensures var n := FullName(ms[i].header);
        if n in f.scanner then n in Hashes(f, ms) && Hashes(f, ms)[n] == f.sha(ms[i].raw)
        else n in Evidence(f, ms) && Evidence(f, ms)[n] == ms[i].raw
    {
      LookUp(f, ms, i);
    }
  }

  // ----- reading it -----------------------------------------------------------

  lemma Halves(s: Bytes, i: nat, j: nat)
    requires i <= j <= |s|
    ensures s[i..] == s[i..j] + s[j..]
  {
  }

  lemma Regroup(x: Bytes, y: Bytes, z: Bytes)
    ensures x + (y + z) == (x + y) + z
  {
  }

  /** `_BoundedDecompressedStream` under a tar reader that reads ahead: `count`
      bytes were decompressed, `at` of them were used. */
  class BoundedStream {
    const content: Bytes
    const whole: bool
    var count: nat
    var at: nat

    ghost predicate Valid()
      reads this
    {
      at <= count <= |content|
    }

    ghost predicate Sizable() {
      whole && |content| <= MAX_UNCOMPRESSED
    }

    /** What the tar reader has not used yet. */
    ghost function Left(): Bytes
      reads this
      requires Valid()
    {
      content[at..]
    }

    constructor (content: Bytes, whole: bool)
      ensures Valid() && this.content == content && this.whole == whole && at == 0 == count
    {
      this.content, this.whole, count, at := content, whole, 0, 0;
    }

    /** Decompress some more, at most a piece; `None` is an error. Only at the
        end is nothing read. */
    method Read(requested: nat) returns (n: Option<nat>)
      requires Valid()
      modifies `count
      ensures Valid() && count >= old(count)
      ensures n.Some? ==> count == old(count) + n.value && n.value <= PIECE && n.value <= requested
      ensures n.Some? && requested > 0 && n.value == 0 ==> whole && count == |content| <= MAX_UNCOMPRESSED
      ensures n.None? ==> !Sizable()
    {
      var size := if requested < PIECE then requested else PIECE;
      var broken: bool := *;
      if broken && !whole {
        return None;
      }
      if count == |content| && !whole {
        return None;
      }
      var rest := |content| - count;
      var k: nat :| k <= size && k <= rest && (size > 0 && rest > 0 ==> k > 0);
      count := count + k;
      if count > MAX_UNCOMPRESSED {
        return None;
      }
      n := Some(k);
    }

    /** The tar reader takes `n` bytes, fewer only at the end. */
    method Take(n: nat) returns (r: Option<Bytes>)
      requires Valid()
      modifies this
      ensures Valid()
      ensures r.Some? ==> r.value == if n <= |old(Left())| then old(Left())[..n] else old(Left())
      ensures r.Some? ==> old(Left()) == r.value + Left()
      ensures r.None? ==> !Sizable()
    {
      while count - at < n
        invariant Valid() && at == old(at)
        decreases |content| - count
      {
        var k := Read(10240);
        if k.None? {
          return None;
        }
        if k.value == 0 {
          break;
        }
      }
      var end := if count - at < n then count else at + n;
      assert end == at + n || end == |content|;
      Halves(content, at, end);
      r := Some(content[at..end]);
      at := end;
    }

    /** The chunks of one file: hashed, and kept if `keep`; `None` if it is cut
        short or an error comes first. */
    method ReadFile(size: nat, keep: bool) returns (hashed: Option<Bytes>, kept: Bytes)
      requires Valid()
      modifies this
      ensures Valid()
      ensures hashed.Some? ==> |hashed.value| == size && old(Left()) == hashed.value + Left()
      ensures hashed.Some? && keep ==> kept == hashed.value
      ensures hashed.None? ==> !Sizable() || |old(Left())| < size
    {
      var done: Bytes := [];
      kept := [];
      var remaining := size;
      while remaining > 0
        invariant Valid() && 0 <= remaining <= size && |done| == size - remaining
        invariant old(Left()) == done + Left()
        invariant keep ==> kept == done
      {
        var chunk := Take(if remaining < PIECE then remaining else PIECE);
        if chunk.None? || chunk.value == [] {
          return None, kept;
        }
        Regroup(done, chunk.value, Left());
        done := done + chunk.value;
        if keep {
          kept := kept + chunk.value;
        }
        remaining := remaining - |chunk.value|;
      }
      hashed := Some(done);
    }

    /** Everything behind the tar end counts against the limit as well. */
    method Drain() returns (ok: bool)
      requires Valid()
      modifies this
      ensures ok <==> Sizable()
    {
      var more := true;
      while more
        invariant Valid()
        invariant !more ==> whole && |content| <= MAX_UNCOMPRESSED
        decreases more, |content| - count
      {
        var k := Read(PIECE);
        if k.None? {
          return false;
        }
        more := k.value > 0;
      }
      ok := true;
    }
  }

  // ----- the loop over the members --------------------------------------------

  /** With `seen` read, the members of `left` are the ones still to come. */
  ghost predicate Ahead(f: Form, content: Bytes, seen: seq<Member>, left: Bytes) {
    Walk(f, content) == (if Walk(f, left).None? then None else Some(seen + Walk(f, left).value))
  }

  lemma AheadStep(f: Form, content: Bytes, seen: seq<Member>, left: Bytes)
    requires Ahead(f, content, seen, left) && !Ends(f, left)
    ensures var h := f.decode(left[..BLOCK]).value;
      if |left| < Span(h) then Walk(f, content).None?
      else Ahead(f, content, seen + [Member(h, left[BLOCK..BLOCK + h.size])], left[Span(h)..])
  {
    var h := f.decode(left[..BLOCK]).value;
    if |left| >= Span(h) && Walk(f, left).Some? {
      var m := Member(h, left[BLOCK..BLOCK + h.size]);
      assert seen + ([m] + Walk(f, left[Span(h)..]).value) == seen + [m] + Walk(f, left[Span(h)..]).value;
    }
  }

  lemma {:induction false} TotalConcat(a: seq<Member>, b: seq<Member>)
    ensures Total(a + b) == Total(a) + Total(b)
  {
    if b == [] {
      assert a + b == a;
    } else {
      TotalConcat(a, b[..|b| - 1]);
      assert (a + b)[..|a + b| - 1] == a + b[..|b| - 1];
    }
  }

  /** The sizes add up to less than the stream holds. */
  lemma {:induction false} TotalFits(f: Form, raw: Bytes)
    ensures Walk(f, raw).Some? ==> Total(Walk(f, raw).value) <= |raw|
    decreases |raw|
  {
    if !Ends(f, raw) {
      var h := f.decode(raw[..BLOCK]).value;
      if |raw| >= Span(h) {
        var rest := raw[Span(h)..];
        TotalFits(f, rest);
        if Walk(f, rest).Some? {
          var m := Member(h, raw[BLOCK..BLOCK + h.size]);
          TotalConcat([m], Walk(f, rest).value);
          assert [m][..0] == [];
        }
      }
    }
  }

  /** A header that is not fine, repeats a name or promises too much. */
  lemma BadHeader(f: Form, content: Bytes, seen: seq<Member>, left: Bytes)
    requires Ahead(f, content, seen, left) && !Ends(f, left)
    requires var h := f.decode(left[..BLOCK]).value;
      !Fine(f, h) || FullName(h) in Names(seen) || Total(seen) + h.size > MAX_UNCOMPRESSED
    ensures Walk(f, content).None? || !Complete(f, Walk(f, content).value) || |content| > MAX_UNCOMPRESSED
  {
    AheadStep(f, content, seen, left);
    var h := f.decode(left[..BLOCK]).value;
    if Walk(f, content).Some? {
      var m := Member(h, left[BLOCK..BLOCK + h.size]);
      var rest := Walk(f, left[Span(h)..]).value;
      assert Walk(f, content).value == seen + [m] + rest;
      BadMember(f, seen, m, rest);
      TotalFits(f, content);
    }
  }

  lemma BadMember(f: Form, seen: seq<Member>, m: Member, rest: seq<Member>)
    requires !Fine(f, m.header) || FullName(m.header) in Names(seen) || Total(seen) + m.header.size > MAX_UNCOMPRESSED
    ensures !Complete(f, seen + [m] + rest) || Total(seen + [m] + rest) > MAX_UNCOMPRESSED
  {
    var all := seen + [m] + rest;
    assert all[|seen|] == m;
    TotalConcat(seen + [m], rest);
    TotalConcat(seen, [m]);
    assert [m][..0] == [];
    if FullName(m.header) in Names(seen) {
      var i :| 0 <= i < |seen| && FullName(seen[i].header) == FullName(m.header);
      assert all[i] == seen[i];
    }
  }

  method NextHeader(f: Form, s: BoundedStream) returns (failed: bool, h: Option<Header>)
    requires s.Valid()
    modifies s
    ensures s.Valid()
    ensures failed ==> !s.Sizable()
    ensures !failed ==> (h.None? <==> Ends(f, old(s.Left())))
    ensures !failed && h.Some? ==> h == f.decode(old(s.Left())[..BLOCK]) && s.Left() == old(s.Left())[BLOCK..]
  {
    h := None;
    var block := s.Take(BLOCK);
    if block.None? {
      return true, None;
    }
    if |block.value| == BLOCK && block.value != Zeros(BLOCK) {
      h := f.decode(block.value);
    }
    failed := false;
  }

  /** A file and the padding behind it. */
  method ReadMember(s: BoundedStream, h: Header, keep: bool, ghost left: Bytes)
    returns (hashed: Option<Bytes>, kept: Bytes)
    requires s.Valid() && |left| >= BLOCK && s.Left() == left[BLOCK..]
    modifies s
    ensures s.Valid()
    ensures hashed.Some? ==> |left| >= Span(h) && hashed.value == left[BLOCK..BLOCK + h.size] && s.Left() == left[Span(h)..]
    ensures hashed.Some? && keep ==> kept == hashed.value
    ensures hashed.None? ==> !s.Sizable() || |left| < Span(h)
  {
    hashed, kept := s.ReadFile(h.size, keep);
    if hashed.None? {
      return;
    }
    assert s.Left() == left[BLOCK + h.size..];
    var pad := s.Take(Padding(h.size));
    if pad.None? || |pad.value| < Padding(h.size) {
      return None, kept;
    }
  }

  /** The dicts and the sum after the members `seen`. */
  ghost predicate Collected(f: Form, seen: seq<Member>, extracted: map<Bytes, Bytes>, hashes: map<Bytes, nat>, total: nat) {
    && extracted == Evidence(f, seen) && hashes == Hashes(f, seen) && total == Total(seen)
    && Distinct(seen) && forall i | 0 <= i < |seen| :: Fine(f, seen[i].header)
  }

  lemma CollectedStep(f: Form, seen: seq<Member>, extracted: map<Bytes, Bytes>, hashes: map<Bytes, nat>, total: nat, m: Member)
    requires Collected(f, seen, extracted, hashes, total) && Fine(f, m.header) && FullName(m.header) !in Names(seen)
    ensures var n := FullName(m.header);
      if n in f.scanner then Collected(f, seen + [m], extracted, hashes[n := f.sha(m.raw)], total + m.header.size)
      else Collected(f, seen + [m], extracted[n := m.raw], hashes, total + m.header.size)
  {
    WalkStep(f, seen, m);
    forall i | 0 <= i < |seen| ensures FullName(seen[i].header) != FullName(m.header) {
      assert FullName(seen[i].header) in Names(seen);
    }
  }

  ghost predicate Progress(f: Form, content: Bytes, seen: seq<Member>, left: Bytes, extracted: map<Bytes, Bytes>,
                           hashes: map<Bytes, nat>, total: nat) {
    Collected(f, seen, extracted, hashes, total) && Ahead(f, content, seen, left)
  }

  lemma ProgressStep(f: Form, content: Bytes, seen: seq<Member>, left: Bytes, extracted: map<Bytes, Bytes>,
                     hashes: map<Bytes, nat>, total: nat)
    requires Progress(f, content, seen, left, extracted, hashes, total) && !Ends(f, left)
    requires var h := f.decode(left[..BLOCK]).value;
      |left| >= Span(h) && Fine(f, h) && FullName(h) !in Names(seen)
    ensures var h := f.decode(left[..BLOCK]).value;
      var m, n, rest := Member(h, left[BLOCK..BLOCK + h.size]), FullName(h), left[Span(h)..];
      if n in f.scanner then Progress(f, content, seen + [m], rest, extracted, hashes[n := f.sha(m.raw)], total + h.size)
      else Progress(f, content, seen + [m], rest, extracted[n := m.raw], hashes, total + h.size)
  {
    var h := f.decode(left[..BLOCK]).value;
    AheadStep(f, content, seen, left);
    CollectedStep(f, seen, extracted, hashes, total, Member(h, left[BLOCK..BLOCK + h.size]));
  }

  lemma AllSeen(f: Form, content: Bytes, seen: seq<Member>, left: Bytes)
    requires Ahead(f, content, seen, left) && Ends(f, left)
    ensures Walk(f, content) == Some(seen)
  {
    assert seen + [] == seen;
  }

  /** The closing comparison of the names. */
  lemma KeysDecide(f: Form, ms: seq<Member>)
    requires Closed(f)
    ensures Evidence(f, ms).Keys == f.evidence && Hashes(f, ms).Keys == f.scanner <==>
      Names(ms) == f.evidence + f.scanner
  {
    KeysAreNames(f, ms);
    assert Names(ms) == (Names(ms) - f.scanner) + (Names(ms) * f.scanner);
  }

  lemma AheadAtStart(f: Form, content: Bytes)
    ensures Ahead(f, content, [], content)
  {
    if Walk(f, content).Some? {
      assert [] + Walk(f, content).value == Walk(f, content).value;
    }
  }

  /** The loop over the members; `ok` means the tar end was reached. */
  method ReadMembers(f: Form, s: BoundedStream)
    returns (ok: bool, extracted: map<Bytes, Bytes>, hashes: map<Bytes, nat>, ghost seen: seq<Member>)
    requires s.Valid() && s.at == 0
    modifies s
    ensures s.Valid()
    ensures ok ==> Walk(f, s.content) == Some(seen) && Collected(f, seen, extracted, hashes, Total(seen))
    ensures !ok ==> !s.Sizable() || Walk(f, s.content).None? || !Complete(f, Walk(f, s.content).value)
  {
    var total: nat := 0;
    extracted, hashes, seen := map[], map[], [];
    AheadAtStart(f, s.content);
    while true
      invariant s.Valid() && Progress(f, s.content, seen, s.Left(), extracted, hashes, total)
      decreases |s.Left()|
    {
      ghost var left := s.Left();
      var failed, header := NextHeader(f, s);
      if failed {
        return false, extracted, hashes, seen;
      }
      if header.None? {
        AllSeen(f, s.content, seen, left);
        return true, extracted, hashes, seen;
      }
      var h := header.value;
      var n := FullName(h);
      KeysAreNames(f, seen);
      if !Fine(f, h) || n in extracted || n in hashes || total + h.size > MAX_UNCOMPRESSED {
        BadHeader(f, s.content, seen, left);
        return false, extracted, hashes, seen;
      }
      var hashed, kept := ReadMember(s, h, n !in f.scanner, left);
      if hashed.None? {
        AheadStep(f, s.content, seen, left);
        return false, extracted, hashes, seen;
      }
      ProgressStep(f, s.content, seen, left, extracted, hashes, total);
      total := total + h.size;
      seen := seen + [Member(h, hashed.value)];
      if n in f.scanner {
        hashes := hashes[n := f.sha(hashed.value)];
      } else {
        extracted := extracted[n := kept];
      }
    }
  }

  /** `_analytics_archive`: taken are exactly the streams that hold every file
      once within its limit, in any order; the kept files and the hashes of the
      others are what they hold. */
  method Extract(f: Form, size: nat, content: Bytes, whole: bool) returns (r: Option<(map<Bytes, Bytes>, map<Bytes, nat>)>)
    requires Closed(f)
    ensures r.Some? <==> Accepts(f, size, content, whole)
    ensures r.Some? ==> r.value == (Evidence(f, Walk(f, content).value), Hashes(f, Walk(f, content).value))
    ensures Standard(f) ==> forall ms | AllConsistent(ms) && content == Archive(ms) ::
      && (r.Some? <==> 0 < size <= 67108864 && whole && |content| <= 293601280 && OnceEach(f, ms))
      && (r.Some? ==> Holds(f, ms, r.value))
  {
    if Standard(f) {
      forall ms | AllConsistent(ms) && content == Archive(ms)
        ensures Walk(f, content) == Some(ms)
        ensures Accepts(f, size, content, whole) <==> 0 < size <= 67108864 && whole && |content| <= 293601280 && OnceEach(f, ms)
        ensures OnceEach(f, ms) ==> Holds(f, ms, (Evidence(f, ms), Hashes(f, ms)))
      {
        ArchiveTaken(f, size, ms, whole);
      }
    }
    if !(0 < size <= MAX_ARCHIVE) {
      return None;
    }
    var s := new BoundedStream(content, whole);
    var ok, extracted, hashes, seen := ReadMembers(f, s);
    if !ok {
      return None;
    }
    ok := s.Drain();
    KeysDecide(f, seen);
    if !ok || extracted.Keys != f.evidence || hashes.Keys != f.scanner {
      return None;
    }
    r := Some((extracted, hashes));
  }
}
