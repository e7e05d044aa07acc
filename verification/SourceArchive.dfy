/** The source archive: written byte by byte, and accepted only if it is exactly
    what would be written for its own manifest and contents
    (`deployment/analytics_source_archive.py`). */
module SourceArchive {
  import opened Wrappers
  import opened SourceNames
  import opened SourceAudit
  import Ustar

  type Digest = nat
  type Commit = string

  const MAX_TOTAL: nat := 14680064
  const MAX_FILE: nat := 1048576
  const MAX_MANIFEST: nat := 16384
  const SOURCES: nat := 32
  const MODE: nat := 420 // 0644

  datatype Described = Described(path: string, hash: Digest, mode: string)

  /** The manifest's name in the archive, `sha256`, what a manifest of the right form describes for a commit, the
      approved paths, and the hashes of the shared files before their change. */
  datatype Review = Review(meta: string, sha: Bytes -> Digest, describe: (Bytes, Commit) -> Option<seq<Described>>,
                           approved: seq<string>, preimage: map<string, Digest>)

  /** ASCII without NUL. */
  predicate Plain(name: string) {
    forall c <- name :: '\0' < c < 128 as char
  }

  /** The first slash from `i` on that leaves at most 155 characters before it
      and 100 behind it. */
  function SplitFrom(name: string, i: nat): (r: Option<nat>)
    ensures r.Some? ==> i <= r.value < |name| && r.value <= 155 && |name| - r.value - 1 <= 100
    ensures forall j | i <= j < (if r.Some? then r.value else |name|) && name[j] == '/' :: j > 155 || |name| - j > 101
    decreases |name| - i
  {
    if i >= |name| then None
    else if name[i] == '/' && i <= 155 && |name| - i - 1 <= 100 then Some(i)
    else SplitFrom(name, i + 1)
  }

  /** What the prefix and name fields get; a name that fits neither way is refused. */
  function Stored(name: string): (r: Option<(string, string)>)
    ensures r.Some? ==> |r.value.0| <= 155 && |r.value.1| <= 100
    ensures r.Some? ==> (forall c <- r.value.0 :: c in name) && (forall c <- r.value.1 :: c in name)
  {
    if |name| <= 100 then Some(("", name))
    else
      var k := SplitFrom(name, 0);
      if k.Some? then Some((name[..k.value], name[k.value + 1..])) else None
  }

  /** The fields give the name back. */
  predicate Kept(name: string) {
    Stored(name).Some? ==> var (prefix, rest) := Stored(name).value; (if prefix == "" then rest else prefix + "/" + rest) == name
  }

  lemma {:induction false} SplitIsAtSlash(name: string, i: nat)
    ensures SplitFrom(name, i).Some? ==> name[SplitFrom(name, i).value] == '/'
    decreases |name| - i
  {
    if i < |name| {
      SplitIsAtSlash(name, i + 1);
    }
  }

  /** Every name comes back but one kind: a leading slash before exactly a hundred characters. */
  lemma KeptIff(name: string)
    ensures Kept(name) <==> !(|name| == 101 && name[0] == '/')
  {
    SplitIsAtSlash(name, 0);
    var k := SplitFrom(name, 0);
    if |name| > 100 && k.Some? {
      assert name == name[..k.value] + "/" + name[k.value + 1..];
      if k.value == 0 {
        assert |name[1..]| != |name|;
      }
    }
  }

  ghost predicate WellFormed(v: Review) {
    && (forall a, b :: v.sha(a) == v.sha(b) ==> a == b)
    && Plain(v.meta) && Kept(v.meta) && |v.approved| == SOURCES
    && forall i | 0 <= i < SOURCES :: Plain(v.approved[i]) && Kept(v.approved[i])
  }

  function Ascii(name: string): (r: Ustar.Bytes)
    ensures |r| == |name| && forall i | 0 <= i < |name| :: r[i] == name[i] as nat
  {
    seq(|name|, i requires 0 <= i < |name| => name[i] as nat)
  }

  lemma AsciiInjective(a: string, b: string)
    requires Ascii(a) == Ascii(b)
    ensures a == b
  {
    forall i | 0 <= i < |a| ensures a[i] == b[i] {
      assert Ascii(a)[i] == Ascii(b)[i];
    }
  }

  // ----- writing ------------------------------------------------------------

  function MemberOf(e: Entry): Ustar.Member
    requires Fits(e)
  {
    var (prefix, rest) := Stored(e.name).value;
    Ustar.Member(Ustar.Header(Ascii(prefix), Ascii(rest), MODE, 0, 0, |e.raw|, 0, Ustar.REGULAR, [], [], []), e.raw)
  }

  function MembersOf(es: seq<Entry>): (r: seq<Ustar.Member>)
    requires Fitting(es)
    ensures |r| == |es| && forall i | 0 <= i < |es| :: r[i] == MemberOf(es[i])
  {
    seq(|es|, i requires 0 <= i < |es| => MemberOf(es[i]))
  }

  /** The format can hold the name and the size. */
  predicate Fits(e: Entry) {
    Plain(e.name) && Stored(e.name).Some? && |e.raw| < Ustar.Power8(11)
  }

  predicate Fitting(es: seq<Entry>) {
    forall i | 0 <= i < |es| :: Fits(es[i])
  }

  lemma AsciiIsText(name: string)
    requires Plain(name)
    ensures Ustar.Text(Ascii(name))
  {
    forall c <- Ascii(name) ensures 0 < c < 256 {
      var k :| 0 <= k < |name| && Ascii(name)[k] == c;
      assert name[k] in name;
    }
  }

  lemma FitsIsConsistent(e: Entry)
    requires Fits(e)
    ensures Ustar.Consistent(MemberOf(e))
  {
    AsciiIsText(Stored(e.name).value.0);
    AsciiIsText(Stored(e.name).value.1);
    assert Ustar.Power8(7) == 2097152;
  }

  /** The name a reader finds. */
  lemma NameReads(e: Entry)
    requires Fits(e) && Kept(e.name)
    ensures NameIs(MemberOf(e).header, e.name)
  {
    var (prefix, rest) := Stored(e.name).value;
    if prefix != "" {
      assert Ascii(prefix) + ['/' as nat] + Ascii(rest) == Ascii(prefix + "/" + rest);
    }
  }

  lemma FittingIsConsistent(es: seq<Entry>)
    requires Fitting(es)
    ensures Ustar.AllConsistent(MembersOf(es))
  {
    forall i | 0 <= i < |es| ensures Ustar.Consistent(MembersOf(es)[i]) {
      FitsIsConsistent(es[i]);
    }
  }

  function Encoded(es: seq<Entry>): Ustar.Bytes
    requires Fitting(es)
  {
    FittingIsConsistent(es);
    Ustar.Archive(MembersOf(es))
  }

  /** The header every file of a source archive has: mode 0644, no owner, no time,
      a regular file without link or owner names, and its name in the two fields. */
  predicate PlainBlock(b: Ustar.Bytes, name: string) {
    && |b| == 512 && Stored(name).Some?
    && b[100..108] == [48, 48, 48, 48, 54, 52, 52, 0]
    && b[108..116] == [48, 48, 48, 48, 48, 48, 48, 0] && b[116..124] == [48, 48, 48, 48, 48, 48, 48, 0]
    && b[136..148] == [48, 48, 48, 48, 48, 48, 48, 48, 48, 48, 48, 0]
    && b[156] == 48 && Ustar.TextAt(b, 157, 100, []) && Ustar.TextAt(b, 265, 32, []) && Ustar.TextAt(b, 297, 32, [])
    && Ustar.TextAt(b, 0, 100, Ascii(Stored(name).value.1)) && Ustar.TextAt(b, 345, 155, Ascii(Stored(name).value.0))
  }

  /** The file at this place: its header, and its content behind it. */
  predicate FileIs(raw: Ustar.Bytes, at: nat, e: Entry) {
    && at + 512 + |e.raw| <= |raw| && PlainBlock(raw[at..at + 512], e.name)
    && raw[at + 512..at + 512 + |e.raw|] == e.raw
  }

  lemma NoDigits(b: Ustar.Bytes, at: nat, digits: nat)
    requires at + digits < |b| && Ustar.DigitsAt(b, at, digits, 0)
    ensures forall k | at <= k < at + digits :: b[k] == 48
  {
    forall k | at <= k < at + digits ensures b[k] == 48 {
      assert 0 / Ustar.Power8(at + digits - 1 - k) == 0;
    }
  }

  lemma ModeDigits(b: Ustar.Bytes)
    requires |b| == 512 && Ustar.DigitsAt(b, 100, 7, 420)
    ensures b[100..108] == [48, 48, 48, 48, 54, 52, 52, 0]
  {
    assert Ustar.Power8(0) == 1 && Ustar.Power8(1) == 8 && Ustar.Power8(2) == 64;
    assert Ustar.Power8(3) == 512 && Ustar.Power8(4) == 4096 && Ustar.Power8(5) == 32768 && Ustar.Power8(6) == 262144;
    assert b[106] == 48 + 420 / Ustar.Power8(0) % 8 && b[105] == 48 + 420 / Ustar.Power8(1) % 8;
    assert b[104] == 48 + 420 / Ustar.Power8(2) % 8 && b[103] == 48 + 420 / Ustar.Power8(3) % 8;
    assert b[102] == 48 + 420 / Ustar.Power8(4) % 8 && b[101] == 48 + 420 / Ustar.Power8(5) % 8;
    assert b[100] == 48 + 420 / Ustar.Power8(6) % 8;
  }

  lemma HeaderOfFile(b: Ustar.Bytes, e: Entry)
    requires Fits(e) && Ustar.HeaderIs(b, MemberOf(e).header)
    ensures PlainBlock(b, e.name)
  {
    ModeDigits(b);
    NoDigits(b, 108, 7);
    NoDigits(b, 116, 7);
    NoDigits(b, 136, 11);
  }

  lemma FileOfMember(raw: Ustar.Bytes, at: nat, e: Entry)
    requires Fits(e) && Ustar.MemberIs(raw, at, MemberOf(e))
    ensures FileIs(raw, at, e)
  {
    HeaderOfFile(raw[at..at + 512], e);
  }

  /** Every file is in the archive with these bytes. */
  lemma EncodedIs(es: seq<Entry>)
    requires Fitting(es)
    ensures Ustar.ArchiveIs(Encoded(es), MembersOf(es))
    ensures forall i | 0 <= i < |es| :: FileIs(Encoded(es), Ustar.Start(MembersOf(es)[..i]), es[i])
  {
    FittingIsConsistent(es);
    var raw, ms := Encoded(es), MembersOf(es);
    Ustar.WrittenIs(ms);
    forall i | 0 <= i < |es| ensures FileIs(raw, Ustar.Start(ms[..i]), es[i]) {
      Ustar.MemberAt(raw, ms, i);
      FileOfMember(raw, Ustar.Start(ms[..i]), es[i]);
    }
  }

  lemma EncodedGrows(es: seq<Entry>, i: nat)
    requires i < |es| && Fitting(es[..i]) && Fits(es[i])
    requires Ustar.AllConsistent(MembersOf(es[..i])) && Ustar.Consistent(MemberOf(es[i]))
    ensures Fitting(es[..i + 1]) && Ustar.AllConsistent(MembersOf(es[..i + 1]))
    ensures Ustar.Blocks(MembersOf(es[..i + 1])) == Ustar.Blocks(MembersOf(es[..i])) + Ustar.Block(MemberOf(es[i]))
  {
    assert es[..i + 1] == es[..i] + [es[i]];
    var ms := MembersOf(es[..i + 1]);
    assert ms[..i] == MembersOf(es[..i]) && ms[i] == MemberOf(es[i]);
  }

  /** `_archive_bytes`: refused is a name or a size the format cannot hold, and too much in all. */
  method ArchiveBytes(es: seq<Entry>) returns (r: Option<Bytes>)
    requires forall i | 0 <= i < |es| :: Plain(es[i].name)
    ensures r == if Fitting(es) && |Encoded(es)| <= MAX_TOTAL then Some(Encoded(es)) else None
    ensures r.Some? ==> |r.value| % 10240 == 0 && |r.value| <= 14680064 && Ustar.ArchiveIs(r.value, MembersOf(es))
    ensures r.Some? ==> forall i | 0 <= i < |es| :: FileIs(r.value, Ustar.Start(MembersOf(es)[..i]), es[i])
  {
    var output: Bytes := [];
    var i := 0;
    while i < |es|
      invariant 0 <= i <= |es| && Fitting(es[..i])
      invariant Ustar.AllConsistent(MembersOf(es[..i])) && output == Ustar.Blocks(MembersOf(es[..i]))
    {
      if Stored(es[i].name).None? || |es[i].raw| >= Ustar.Power8(11) {
        assert !Fits(es[i]);
        return None;
      }
      FitsIsConsistent(es[i]);
      EncodedGrows(es, i);
      output := output + Ustar.Block(MemberOf(es[i]));
      i := i + 1;
    }
    assert es[..|es|] == es;
    output := output + Ustar.Ending(|output|);
    EncodedIs(es);
    r := if |output| <= MAX_TOTAL then Some(output) else None;
  }

  // ----- acceptance ---------------------------------------------------------

  /** `_validate_manifest`, apart from its constants. */
  function Validate(v: Review, manifest: Bytes, expected: Digest, commit: Commit): Option<seq<Described>> {
    if !(0 < |manifest| <= MAX_MANIFEST) || v.sha(manifest) != expected then None
    else
      var d := v.describe(manifest, commit);
      if d.Some? && |d.value| == SOURCES then d else None
  }

  /** One content against its description: approved, unmodified, and really changed if shared. */
  predicate Matches(v: Review, d: Described, path: string, raw: Bytes) {
    && d.path == path && d.mode == "0644" && v.sha(raw) == d.hash && 0 < |raw| <= MAX_FILE
    && !(path in v.preimage && v.preimage[path] == d.hash)
  }

  /** A manifest and contents the review stands for. */
  predicate Authorized(v: Review, expected: Digest, commit: Commit, manifest: Bytes, contents: seq<Entry>) {
    var d := Validate(v, manifest, expected, commit);
    && d.Some? && |contents| == SOURCES == |v.approved|
    && (forall i | 0 <= i < SOURCES :: contents[i].name == v.approved[i])
    && (forall i | 0 <= i < SOURCES :: Matches(v, d.value[i], v.approved[i], contents[i].raw))
  }

  /** `raw` is exactly the archive of this manifest and these contents. */
  predicate Genuine(v: Review, raw: Bytes, expected: Digest, commit: Commit, manifest: Bytes, contents: seq<Entry>) {
    var all := [Entry(v.meta, manifest)] + contents;
    && Authorized(v, expected, commit, manifest, contents)
    && Fitting(all) && raw == Encoded(all) && |raw| <= MAX_TOTAL
  }

  /** A manifest of at most 16 KiB with the hash, which describes 32 files for the commit;
      each is under its approved name, as described, of mode 0644, of 1 byte to 1 MiB,
      and changed if it is a shared one. */
  predicate Reviewed(v: Review, expected: Digest, commit: Commit, manifest: Bytes, contents: seq<Entry>) {
    var d := v.describe(manifest, commit);
    && 0 < |manifest| <= 16384 && v.sha(manifest) == expected
    && d.Some? && |d.value| == |contents| == |v.approved| == 32
    && forall i | 0 <= i < 32 :: AsDescribed(v, d.value[i], v.approved[i], contents[i])
  }

  predicate AsDescribed(v: Review, d: Described, path: string, e: Entry) {
    && e.name == path == d.path && d.mode == "0644" && v.sha(e.raw) == d.hash && 1 <= |e.raw| <= 1048576
    && (path in v.preimage ==> v.preimage[path] != v.sha(e.raw))
  }

  lemma AuthorizedIff(v: Review, expected: Digest, commit: Commit, manifest: Bytes, contents: seq<Entry>)
    ensures Authorized(v, expected, commit, manifest, contents) <==> Reviewed(v, expected, commit, manifest, contents)
  {
    var d := v.describe(manifest, commit);
    if d.Some? && |d.value| == |contents| == |v.approved| == SOURCES {
      forall i | 0 <= i < SOURCES
        ensures AsDescribed(v, d.value[i], v.approved[i], contents[i]) <==>
          contents[i].name == v.approved[i] && Matches(v, d.value[i], v.approved[i], contents[i].raw)
      {
      }
    }
  }

  /** The bytes are, offset by offset, the archive of the manifest and then the contents. */
  ghost predicate ArchiveOf(v: Review, raw: Bytes, manifest: Bytes, contents: seq<Entry>) {
    var all := [Entry(v.meta, manifest)] + contents;
    && Fitting(all) && |raw| <= 14680064 && Ustar.ArchiveIs(raw, MembersOf(all))
    && forall i | 0 <= i < |all| :: FileIs(raw, Ustar.Start(MembersOf(all)[..i]), all[i])
  }

  lemma GenuineIff(v: Review, raw: Bytes, expected: Digest, commit: Commit, manifest: Bytes, contents: seq<Entry>)
    ensures Genuine(v, raw, expected, commit, manifest, contents) <==>
      Reviewed(v, expected, commit, manifest, contents) && ArchiveOf(v, raw, manifest, contents)
  {
    var all := [Entry(v.meta, manifest)] + contents;
    AuthorizedIff(v, expected, commit, manifest, contents);
    if Fitting(all) {
      FittingIsConsistent(all);
      Ustar.WrittenIff(raw, MembersOf(all));
      EncodedIs(all);
    }
  }

  /** One manifest hash and commit stand for at most one manifest and one content. */
  lemma AtMostOneAuthorized(v: Review, expected: Digest, commit: Commit, manifest: Bytes, contents: seq<Entry>,
                            manifest': Bytes, contents': seq<Entry>)
    requires WellFormed(v)
    requires Authorized(v, expected, commit, manifest, contents) && Authorized(v, expected, commit, manifest', contents')
    ensures manifest == manifest' && contents == contents'
  {
    assert manifest == manifest';
    var d := Validate(v, manifest, expected, commit).value;
    forall i | 0 <= i < SOURCES ensures contents[i] == contents'[i] {
      assert Matches(v, d[i], v.approved[i], contents[i].raw) && Matches(v, d[i], v.approved[i], contents'[i].raw);
    }
  }

  /** So at most one byte string is accepted: nothing can be added, reordered or re-encoded. */
  lemma AtMostOneAccepted(v: Review, expected: Digest, commit: Commit, raw: Bytes, manifest: Bytes, contents: seq<Entry>,
                          raw': Bytes, manifest': Bytes, contents': seq<Entry>)
    requires WellFormed(v)
    requires Genuine(v, raw, expected, commit, manifest, contents)
    requires Genuine(v, raw', expected, commit, manifest', contents')
    ensures manifest == manifest' && contents == contents' && raw == raw'
  {
    AtMostOneAuthorized(v, expected, commit, manifest, contents, manifest', contents');
  }

  /** Different entries never have the same bytes, hash or not: the archive reads back. */
  lemma EncodedReadsBack(es: seq<Entry>)
    requires Fitting(es)
    ensures Ustar.Members(Encoded(es)) == MembersOf(es)
  {
    FittingIsConsistent(es);
    Ustar.ArchiveReads(MembersOf(es));
  }

  /** What is stored of an entry. */
  predicate SameStored(e: Entry, e': Entry) {
    Stored(e.name) == Stored(e'.name) && e.raw == e'.raw
  }

  /** Two lists of entries have the same bytes exactly if they store the same
      names and payloads, and then they are equal when all names come back. */
  lemma EncodedInjective(es: seq<Entry>, es': seq<Entry>)
    requires Fitting(es) && Fitting(es')
    ensures Encoded(es) == Encoded(es') <==> |es| == |es'| && forall i | 0 <= i < |es| :: SameStored(es[i], es'[i])
    ensures Encoded(es) == Encoded(es') && (forall i | 0 <= i < |es| :: Kept(es[i].name) && Kept(es'[i].name)) ==> es == es'
  {
    if Encoded(es) == Encoded(es') {
      EncodedReadsBack(es);
      EncodedReadsBack(es');
      assert |MembersOf(es)| == |MembersOf(es')|;
      forall i | 0 <= i < |es| ensures SameStored(es[i], es'[i]) {
        assert MembersOf(es)[i] == MembersOf(es')[i];
        AsciiInjective(Stored(es[i].name).value.0, Stored(es'[i].name).value.0);
        AsciiInjective(Stored(es[i].name).value.1, Stored(es'[i].name).value.1);
      }
      forall i | 0 <= i < |es| && Kept(es[i].name) && Kept(es'[i].name) ensures es[i] == es'[i] {
        assert SameStored(es[i], es'[i]);
      }
    }
    if |es| == |es'| && forall i | 0 <= i < |es| :: SameStored(es[i], es'[i]) {
      SameStoredSameBytes(es, es');
    }
  }

  lemma SameStoredSameBytes(es: seq<Entry>, es': seq<Entry>)
    requires Fitting(es) && Fitting(es')
    requires |es| == |es'| && forall i | 0 <= i < |es| :: SameStored(es[i], es'[i])
    ensures Encoded(es) == Encoded(es')
  {
    forall i | 0 <= i < |es| ensures MembersOf(es)[i] == MembersOf(es')[i] {
      assert SameStored(es[i], es'[i]);
    }
    assert MembersOf(es) == MembersOf(es');
  }

  // ----- the verifier -------------------------------------------------------

  /** The member attributes the verifier insists on. */
  predicate PlainHeader(h: Ustar.Header) {
    && (h.kind == Ustar.REGULAR || h.kind == 0) && h.mode == MODE && h.uid == 0 && h.gid == 0 && h.mtime == 0
    && h.uname == [] && h.gname == [] && h.link == [] && 0 < h.size <= MAX_FILE
  }

  predicate NameIs(h: Ustar.Header, name: string) {
    Ustar.FullName(h) == Ascii(name)
  }

  predicate PlainAt(ms: seq<Ustar.Member>, i: nat)
    requires i < |ms|
  {
    PlainHeader(ms[i].header)
  }

  predicate NameAt(v: Review, ms: seq<Ustar.Member>, i: nat)
    requires i < |v.approved| == |ms| - 1
  {
    NameIs(ms[i + 1].header, v.approved[i])
  }

  predicate MatchAt(v: Review, d: seq<Described>, ms: seq<Ustar.Member>, i: nat)
    requires i < |d| == |v.approved| == |ms| - 1
  {
    Matches(v, d[i], v.approved[i], ms[i + 1].raw)
  }

  /** Everything checked before the bytes are rebuilt. */
  predicate Acceptable(v: Review, ms: seq<Ustar.Member>, expected: Digest, commit: Commit) {
    && |ms| == SOURCES + 1 == |v.approved| + 1 && NameIs(ms[0].header, v.meta)
    && (forall i | 0 <= i <= SOURCES :: PlainAt(ms, i))
    && var d := Validate(v, ms[0].raw, expected, commit);
    && d.Some?
    && (forall i | 0 <= i < SOURCES :: NameAt(v, ms, i))
    && (forall i | 0 <= i < SOURCES :: MatchAt(v, d.value, ms, i))
  }

  function Contents(v: Review, ms: seq<Ustar.Member>): (r: seq<Entry>)
    requires |ms| == |v.approved| + 1
    ensures |r| == |v.approved| && forall i | 0 <= i < |r| :: r[i] == Entry(v.approved[i], ms[i + 1].raw)
  {
    seq(|v.approved|, i requires 0 <= i < |v.approved| => Entry(v.approved[i], ms[i + 1].raw))
  }

  lemma GenuineIsAcceptable(v: Review, raw: Bytes, expected: Digest, commit: Commit, manifest: Bytes, contents: seq<Entry>)
    requires WellFormed(v) && Genuine(v, raw, expected, commit, manifest, contents)
    ensures var ms := Ustar.Members(raw); Acceptable(v, ms, expected, commit) && ms[0].raw == manifest && Contents(v, ms) == contents
  {
    var all := [Entry(v.meta, manifest)] + contents;
    EncodedReadsBack(all);
    MembersAcceptable(v, MembersOf(all), expected, commit, manifest, contents);
  }

  lemma MembersAcceptable(v: Review, ms: seq<Ustar.Member>, expected: Digest, commit: Commit, manifest: Bytes,
                          contents: seq<Entry>)
    requires WellFormed(v) && Authorized(v, expected, commit, manifest, contents)
    requires Fitting([Entry(v.meta, manifest)] + contents) && ms == MembersOf([Entry(v.meta, manifest)] + contents)
    ensures Acceptable(v, ms, expected, commit) && ms[0].raw == manifest && Contents(v, ms) == contents
  {
    MemberIsPlain(Entry(v.meta, manifest), ms[0]);
    var d := Validate(v, manifest, expected, commit).value;
    forall i | 0 <= i < SOURCES
      ensures PlainAt(ms, i + 1) && NameAt(v, ms, i) && MatchAt(v, d, ms, i) && ms[i + 1].raw == contents[i].raw
    {
      var all := [Entry(v.meta, manifest)] + contents;
      assert all[i + 1] == contents[i] && Fits(all[i + 1]) && Matches(v, d[i], v.approved[i], contents[i].raw);
      MemberIsPlain(contents[i], ms[i + 1]);
    }
    forall i | 0 <= i <= SOURCES ensures PlainAt(ms, i) {
      if i > 0 {
        var j := i - 1;
        assert PlainAt(ms, j + 1);
      }
    }
    ContentsAre(v, ms, contents);
  }

  lemma ContentsAre(v: Review, ms: seq<Ustar.Member>, contents: seq<Entry>)
    requires |ms| == |v.approved| + 1 == |contents| + 1
    requires forall i | 0 <= i < |contents| :: contents[i].name == v.approved[i]
    requires forall i | 0 <= i < |contents| :: ms[i + 1].raw == contents[i].raw
    ensures Contents(v, ms) == contents
  {
  }

  lemma MemberIsPlain(e: Entry, m: Ustar.Member)
    requires Fits(e) && Kept(e.name) && m == MemberOf(e) && 0 < |e.raw| <= MAX_FILE
    ensures PlainHeader(m.header) && NameIs(m.header, e.name) && m.raw == e.raw
  {
    NameReads(e);
  }

  /** Reading `raw` further gives `after`. */
  ghost predicate Follows(raw: Bytes, after: seq<Ustar.Member>) {
    Ustar.Members(raw) == after
  }

  method NextMember(raw: Bytes, ghost all: seq<Ustar.Member>) returns (m: Option<Ustar.Member>, rest: Bytes)
    requires Follows(raw, all)
    ensures m.None? ==> all == []
    ensures m.Some? ==> all != [] && all[0] == m.value && Follows(rest, all[1..]) && |rest| < |raw|
  {
    var next := Ustar.Next(raw);
    if next.None? {
      return None, [];
    }
    return Some(next.value.0), next.value.1;
  }

  /** At most one member more than there may be is read. */
  method ReadMembers(raw: Bytes, ghost all: seq<Ustar.Member>) returns (ms: seq<Ustar.Member>)
    requires Follows(raw, all)
    ensures if |all| < SOURCES + 2 then ms == all else |ms| == SOURCES + 2
  {
    ms := [];
    var rest := raw;
    while |ms| < SOURCES + 2
      invariant |ms| <= SOURCES + 2 && ms <= all && Follows(rest, all[|ms|..])
      decreases |rest|
    {
      var m;
      m, rest := NextMember(rest, all[|ms|..]);
      if m.None? {
        return;
      }
      ms := ms + [m.value];
    }
  }

  /** The checks on all members, and then on each content. */
  method CheckMembers(v: Review, ms: seq<Ustar.Member>, expected: Digest, commit: Commit) returns (r: Option<seq<Entry>>)
    requires |v.approved| == SOURCES
    ensures r.Some? <==> Acceptable(v, ms, expected, commit)
    ensures r.Some? ==> r.value == Contents(v, ms)
  {
    if |ms| != SOURCES + 1 || !NameIs(ms[0].header, v.meta) || exists i | 0 <= i <= SOURCES :: !PlainAt(ms, i) {
      return None;
    }
    var d := Validate(v, ms[0].raw, expected, commit);
    if d.None? || exists i | 0 <= i < SOURCES :: !NameAt(v, ms, i) {
      return None;
    }
    var contents: seq<Entry> := [];
    while |contents| < SOURCES
      invariant |contents| <= SOURCES && contents == Contents(v, ms)[..|contents|]
      invariant forall i | 0 <= i < |contents| :: MatchAt(v, d.value, ms, i)
    {
      var i := |contents|;
      if !MatchAt(v, d.value, ms, i) {
        return None;
      }
      contents := contents + [Entry(v.approved[i], ms[i + 1].raw)];
    }
    assert contents == Contents(v, ms);
    return Some(contents);
  }

  /** `verify_analytics_source_archive`: accepted are exactly the genuine archives. */
  method VerifySourceArchive(v: Review, raw: Bytes, expected: Digest, commit: Commit)
    returns (r: Option<seq<Entry>>, ghost manifest: Bytes)
    requires WellFormed(v)
    ensures r.Some? ==> Genuine(v, raw, expected, commit, manifest, r.value)
    ensures r.None? ==> NeverGenuine(v, raw, expected, commit)
    ensures r.Some? ==> Reviewed(v, expected, commit, manifest, r.value) && ArchiveOf(v, raw, manifest, r.value)
    ensures r.None? ==> ArchiveOfNothing(v, raw, expected, commit)
  {
    r, manifest := Decide(v, raw, expected, commit);
    if r.Some? {
      GenuineIff(v, raw, expected, commit, manifest, r.value);
    } else {
      NeverGenuineMeans(v, raw, expected, commit);
    }
  }

  /** All checks, in the order of the source. */
  method Decide(v: Review, raw: Bytes, expected: Digest, commit: Commit)
    returns (r: Option<seq<Entry>>, ghost manifest: Bytes)
    requires WellFormed(v)
    ensures r.Some? ==> Genuine(v, raw, expected, commit, manifest, r.value)
    ensures r.None? ==> NeverGenuine(v, raw, expected, commit)
  {
    manifest := [];
    if !(0 < |raw| <= MAX_TOTAL) {
      TooLongOrEmpty(v, raw, expected, commit);
      return None, manifest;
    }
    var ms := ReadMembers(raw, Ustar.Members(raw));
    var contents := CheckMembers(v, ms, expected, commit);
    if contents.None? {
      UnacceptableIsNeverGenuine(v, raw, ms, expected, commit);
      return None, manifest;
    }
    manifest := ms[0].raw;
    NamesArePlain(v, ms);
    var again := ArchiveBytes([Entry(v.meta, ms[0].raw)] + contents.value);
    RebuiltDecides(v, raw, ms, expected, commit);
    r := if again == Some(raw) then contents else None;
  }

  /** No reviewed manifest and contents have these bytes. */
  ghost predicate ArchiveOfNothing(v: Review, raw: Bytes, expected: Digest, commit: Commit) {
    forall m, contents | Reviewed(v, expected, commit, m, contents) :: !ArchiveOf(v, raw, m, contents)
  }

  lemma NeverGenuineMeans(v: Review, raw: Bytes, expected: Digest, commit: Commit)
    requires NeverGenuine(v, raw, expected, commit)
    ensures ArchiveOfNothing(v, raw, expected, commit)
  {
    forall m, contents | Reviewed(v, expected, commit, m, contents) ensures !ArchiveOf(v, raw, m, contents) {
      GenuineIff(v, raw, expected, commit, m, contents);
    }
  }

  ghost predicate NeverGenuine(v: Review, raw: Bytes, expected: Digest, commit: Commit) {
    forall m, contents :: !Genuine(v, raw, expected, commit, m, contents)
  }

  lemma TooLongOrEmpty(v: Review, raw: Bytes, expected: Digest, commit: Commit)
    requires !(0 < |raw| <= MAX_TOTAL)
    ensures NeverGenuine(v, raw, expected, commit)
  {
  }

  lemma UnacceptableIsNeverGenuine(v: Review, raw: Bytes, ms: seq<Ustar.Member>, expected: Digest, commit: Commit)
    requires |ms| < SOURCES + 2 ==> ms == Ustar.Members(raw)
    requires |ms| == SOURCES + 2 ==> |Ustar.Members(raw)| > SOURCES + 1
    requires WellFormed(v) && |ms| <= SOURCES + 2 && !Acceptable(v, ms, expected, commit)
    ensures NeverGenuine(v, raw, expected, commit)
  {
    forall m, contents ensures !Genuine(v, raw, expected, commit, m, contents) {
      if Genuine(v, raw, expected, commit, m, contents) {
        GenuineIsAcceptable(v, raw, expected, commit, m, contents);
      }
    }
  }

  lemma RebuiltDecides(v: Review, raw: Bytes, ms: seq<Ustar.Member>, expected: Digest, commit: Commit)
    requires WellFormed(v) && Acceptable(v, ms, expected, commit) && ms == Ustar.Members(raw) && |raw| <= MAX_TOTAL
    ensures var all := [Entry(v.meta, ms[0].raw)] + Contents(v, ms);
      if Fitting(all) && raw == Encoded(all)
      then Genuine(v, raw, expected, commit, ms[0].raw, Contents(v, ms)) else NeverGenuine(v, raw, expected, commit)
  {
    var all := [Entry(v.meta, ms[0].raw)] + Contents(v, ms);
    AcceptableIsAuthorized(v, ms, expected, commit);
    forall m, contents | Genuine(v, raw, expected, commit, m, contents) ensures m == ms[0].raw && contents == Contents(v, ms) {
      GenuineIsAcceptable(v, raw, expected, commit, m, contents);
    }
  }

  lemma AcceptableIsAuthorized(v: Review, ms: seq<Ustar.Member>, expected: Digest, commit: Commit)
    requires WellFormed(v) && Acceptable(v, ms, expected, commit)
    ensures Authorized(v, expected, commit, ms[0].raw, Contents(v, ms))
  {
    var d := Validate(v, ms[0].raw, expected, commit);
    forall i | 0 <= i < SOURCES ensures Matches(v, d.value[i], v.approved[i], Contents(v, ms)[i].raw) {
      assert MatchAt(v, d.value, ms, i);
    }
  }

  lemma NamesArePlain(v: Review, ms: seq<Ustar.Member>)
    requires WellFormed(v) && |ms| == |v.approved| + 1
    ensures var all := [Entry(v.meta, ms[0].raw)] + Contents(v, ms); forall i | 0 <= i < |all| :: Plain(all[i].name)
  {
    var all := [Entry(v.meta, ms[0].raw)] + Contents(v, ms);
    forall i | 0 <= i < |all| ensures Plain(all[i].name) {
      assert i > 0 ==> all[i] == Contents(v, ms)[i - 1];
    }
  }

  /** What the builder writes for a review the verifier accepts, and nothing longer. */
  lemma NothingMayFollow(v: Review, raw: Bytes, more: Bytes, expected: Digest, commit: Commit,
                         manifest: Bytes, contents: seq<Entry>, manifest': Bytes, contents': seq<Entry>)
    requires WellFormed(v) && more != []
    requires Genuine(v, raw, expected, commit, manifest, contents)
    ensures !Genuine(v, raw + more, expected, commit, manifest', contents')
  {
    if Genuine(v, raw + more, expected, commit, manifest', contents') {
      AtMostOneAccepted(v, expected, commit, raw, manifest, contents, raw + more, manifest', contents');
    }
  }
}
