/** The ustar interchange format of the POSIX.1 pax utility, as far as the source
    archive writes it, and the reading of it back. Bytes are numbers below 256. */
module Ustar {
  import opened Wrappers

  type Bytes = seq<nat>

  const BLOCK: nat := 512
  const RECORD: nat := 10240
  const REGULAR: nat := '0' as nat
  /** "ustar", NUL, "00" */
  const MAGIC: Bytes := [117, 115, 116, 97, 114, 0, 48, 48]

  datatype Header = Header(prefix: Bytes, name: Bytes, mode: nat, uid: nat, gid: nat, size: nat, mtime: nat,
                           kind: nat, link: Bytes, uname: Bytes, gname: Bytes)

  datatype Member = Member(header: Header, raw: Bytes)

  // ----- numbers and padded text --------------------------------------------

  function Zeros(n: nat): (r: Bytes)
    ensures |r| == n && forall i | 0 <= i < n :: r[i] == 0
  {
    seq(n, _ => 0)
  }

  function Field(s: Bytes, width: nat): (r: Bytes)
    requires |s| <= width
    ensures |r| == width
  {
    s + Zeros(width - |s|)
  }

  function UpToNul(s: Bytes): (r: Bytes)
    ensures |r| <= |s|
  {
    if s == [] || s[0] == 0 then [] else [s[0]] + UpToNul(s[1..])
  }

  predicate Text(s: Bytes) {
    forall c <- s :: 0 < c < 256
  }

  lemma {:induction false} UpToNulStops(s: Bytes, rest: Bytes)
    requires (forall c <- s :: c != 0) && (rest == [] || rest[0] == 0)
    ensures UpToNul(s + rest) == s
  {
    if s == [] {
      assert s + rest == rest;
    } else {
      assert (s + rest)[1..] == s[1..] + rest && s[0] in s;
      assert forall c <- s[1..] :: c in s;
      UpToNulStops(s[1..], rest);
    }
  }

  function Power8(d: nat): (r: nat)
    ensures r > 0
  {
    if d == 0 then 1 else 8 * Power8(d - 1)
  }

  /** Exactly `d` octal digits. */
  function Octal(n: nat, d: nat): (r: Bytes)
    ensures |r| == d && forall c <- r :: 48 <= c < 56
  {
    if d == 0 then [] else Octal(n / 8, d - 1) + [48 + n % 8]
  }

  function OctalValue(s: Bytes): Option<nat> {
    if s == [] then Some(0)
    else
      var high := OctalValue(s[..|s| - 1]);
      if high.Some? && 48 <= s[|s| - 1] < 56 then Some(8 * high.value + (s[|s| - 1] - 48)) else None
  }

  lemma {:induction false} OctalReads(n: nat, d: nat)
    requires n < Power8(d)
    ensures OctalValue(Octal(n, d)) == Some(n)
  {
    if d > 0 {
      OctalReads(n / 8, d - 1);
      assert Octal(n, d)[..d - 1] == Octal(n / 8, d - 1);
    }
  }

  function TrimLeft(s: Bytes): Bytes {
    if s != [] && s[0] == 32 then TrimLeft(s[1..]) else s
  }

  function TrimRight(s: Bytes): Bytes {
    if s != [] && s[|s| - 1] == 32 then TrimRight(s[..|s| - 1]) else s
  }

  /** Octal digits up to a NUL, blanks around them ignored. */
  function ReadNumber(f: Bytes): Option<nat> {
    OctalValue(TrimRight(TrimLeft(UpToNul(f))))
  }

  lemma NumberReads(n: nat, d: nat, rest: Bytes)
    requires d > 0 && n < Power8(d)
    ensures ReadNumber(Octal(n, d) + [0] + rest) == Some(n)
  {
    assert Octal(n, d) + [0] + rest == Octal(n, d) + ([0] + rest);
    UpToNulStops(Octal(n, d), [0] + rest);
    assert Octal(n, d)[0] in Octal(n, d) && Octal(n, d)[d - 1] in Octal(n, d);
    OctalReads(n, d);
  }

  function Number(n: nat, width: nat): (r: Bytes)
    requires width > 0
    ensures |r| == width
  {
    Octal(n, width - 1) + [0]
  }

  function Sum(s: Bytes): nat {
    if s == [] then 0 else s[0] + Sum(s[1..])
  }

  lemma {:induction false} SumBound(s: Bytes)
    requires forall c <- s :: c < 256
    ensures Sum(s) <= 255 * |s|
  {
    if s != [] {
      assert s[0] in s && forall c <- s[1..] :: c in s;
      SumBound(s[1..]);
    }
  }

  // ----- a header -----------------------------------------------------------

  predicate Writable(h: Header) {
    && |h.prefix| <= 155 && |h.name| <= 100 && |h.link| <= 100 && |h.uname| <= 32 && |h.gname| <= 32
    && Text(h.prefix) && Text(h.name) && Text(h.link) && Text(h.uname) && Text(h.gname)
    && h.mode < Power8(7) && h.uid < Power8(7) && h.gid < Power8(7) && h.size < Power8(11) && h.mtime < Power8(11)
    && h.kind < 256
  }

  function Front(h: Header): (r: Bytes)
    requires Writable(h)
    ensures |r| == 148
  {
    Field(h.name, 100) + Number(h.mode, 8) + Number(h.uid, 8) + Number(h.gid, 8) + Number(h.size, 12) + Number(h.mtime, 12)
  }

  function Back(h: Header): (r: Bytes)
    requires Writable(h)
    ensures |r| == 356
  {
    [h.kind] + Field(h.link, 100) + MAGIC + Field(h.uname, 32) + Field(h.gname, 32) + Zeros(16) + Field(h.prefix, 155) + Zeros(12)
  }

  /** The checksum counts its own field as blanks. */
  function Sealed(front: Bytes, back: Bytes): nat {
    Sum(front) + 8 * 32 + Sum(back)
  }

  function Encode(h: Header): (r: Bytes)
    requires Writable(h)
    ensures |r| == BLOCK
  {
    Front(h) + (Octal(Sealed(Front(h), Back(h)), 6) + [0, 32]) + Back(h)
  }

  /** A header block, unless the checksum or a number is wrong. */
  function Decode(b: Bytes): Option<Header>
    requires |b| == BLOCK
  {
    var mode, uid, gid := ReadNumber(b[100..108]), ReadNumber(b[108..116]), ReadNumber(b[116..124]);
    var size, mtime, check := ReadNumber(b[124..136]), ReadNumber(b[136..148]), ReadNumber(b[148..156]);
    if mode.None? || uid.None? || gid.None? || size.None? || mtime.None? || check != Some(Sealed(b[..148], b[156..])) then None
    else
      Some(Header(UpToNul(b[345..500]), UpToNul(b[..100]), mode.value, uid.value, gid.value, size.value, mtime.value,
                  b[156], UpToNul(b[157..257]), UpToNul(b[265..297]), UpToNul(b[297..329])))
  }

  lemma FieldReads(s: Bytes, width: nat)
    requires |s| <= width && Text(s)
    ensures UpToNul(Field(s, width)) == s
  {
    UpToNulStops(s, Zeros(width - |s|));
  }

  lemma WidthReads(n: nat, width: nat)
    requires width > 1 && n < Power8(width - 1)
    ensures ReadNumber(Number(n, width)) == Some(n)
  {
    NumberReads(n, width - 1, []);
    assert Octal(n, width - 1) + [0] + [] == Number(n, width);
  }

  /** Which bytes are which field. */
  lemma FrontParts(h: Header, b: Bytes)
    requires Writable(h) && |b| == BLOCK && b[..148] == Front(h)
    ensures b[..100] == b[0..100] == Field(h.name, 100)
    ensures b[100..108] == Number(h.mode, 8) && b[108..116] == Number(h.uid, 8) && b[116..124] == Number(h.gid, 8)
    ensures b[124..136] == Number(h.size, 12) && b[136..148] == Number(h.mtime, 12)
  {
    var f := Front(h);
    assert b[..100] == f[..100] == Field(h.name, 100);
    assert b[100..108] == f[100..108] == Number(h.mode, 8);
    assert b[108..116] == f[108..116] == Number(h.uid, 8);
    assert b[116..124] == f[116..124] == Number(h.gid, 8);
    assert b[124..136] == f[124..136] == Number(h.size, 12);
    assert b[136..148] == f[136..148] == Number(h.mtime, 12);
  }

  lemma BackParts(h: Header, b: Bytes)
    requires Writable(h) && |b| == BLOCK && b[156..] == Back(h)
    ensures b[156] == h.kind && b[157..257] == Field(h.link, 100) && b[257..265] == MAGIC
    ensures b[265..297] == Field(h.uname, 32) && b[297..329] == Field(h.gname, 32) && b[329..345] == Field([], 16)
    ensures b[345..500] == Field(h.prefix, 155) && b[500..512] == Field([], 12)
  {
    var k := Back(h);
    assert b[156] == k[0];
    assert b[157..257] == k[1..101] == Field(h.link, 100);
    assert b[257..265] == k[101..109] == MAGIC;
    assert b[265..297] == k[109..141] == Field(h.uname, 32);
    assert b[297..329] == k[141..173] == Field(h.gname, 32);
    assert b[329..345] == k[173..189] == Zeros(16) == Field([], 16);
    assert b[345..500] == k[189..344] == Field(h.prefix, 155);
    assert b[500..512] == k[344..356] == Zeros(12) == Field([], 12);
  }

  lemma FrontReads(h: Header, b: Bytes)
    requires Writable(h) && |b| == BLOCK && b[..148] == Front(h)
    ensures UpToNul(b[..100]) == h.name
    ensures ReadNumber(b[100..108]) == Some(h.mode) && ReadNumber(b[108..116]) == Some(h.uid)
    ensures ReadNumber(b[116..124]) == Some(h.gid) && ReadNumber(b[124..136]) == Some(h.size)
    ensures ReadNumber(b[136..148]) == Some(h.mtime)
  {
    FrontParts(h, b);
    FieldReads(h.name, 100);
    WidthReads(h.mode, 8);
    WidthReads(h.uid, 8);
    WidthReads(h.gid, 8);
    WidthReads(h.size, 12);
    WidthReads(h.mtime, 12);
  }

  lemma BackReads(h: Header, b: Bytes)
    requires Writable(h) && |b| == BLOCK && b[156..] == Back(h)
    ensures b[156] == h.kind && UpToNul(b[157..257]) == h.link
    ensures UpToNul(b[265..297]) == h.uname && UpToNul(b[297..329]) == h.gname && UpToNul(b[345..500]) == h.prefix
  {
    BackParts(h, b);
    FieldReads(h.link, 100);
    FieldReads(h.uname, 32);
    FieldReads(h.gname, 32);
    FieldReads(h.prefix, 155);
  }

  lemma BytesStayBytes(h: Header)
    requires Writable(h)
    ensures Sealed(Front(h), Back(h)) < Power8(6)
  {
    SumBound(Front(h));
    SumBound(Back(h));
    assert Power8(6) == 262144;
  }

  /** What is written reads back. */
  lemma EncodeDecodes(h: Header)
    requires Writable(h)
    ensures Decode(Encode(h)) == Some(h)
  {
    var b := Encode(h);
    var sum := Sealed(Front(h), Back(h));
    assert b[..148] == Front(h) && b[156..] == Back(h);
    assert b[148..156] == Octal(sum, 6) + [0, 32];
    FrontReads(h, b);
    BackReads(h, b);
    BytesStayBytes(h);
    NumberReads(sum, 6, [32]);
    assert Octal(sum, 6) + [0] + [32] == Octal(sum, 6) + [0, 32];
  }

  // ----- the header, byte by byte ---------------------------------------------

  /** A field that holds a text and then zeros. */
  predicate TextAt(b: Bytes, at: nat, width: nat, s: Bytes)
    requires at + width <= |b|
  {
    forall k | at <= k < at + width :: b[k] == if k - at < |s| then s[k - at] else 0
  }

  /** A field that holds the octal digits of a number, the highest first, and a zero. */
  predicate DigitsAt(b: Bytes, at: nat, digits: nat, n: nat)
    requires at + digits < |b|
  {
    b[at + digits] == 0 && forall k | at <= k < at + digits :: b[k] == 48 + n / Power8(at + digits - 1 - k) % 8
  }

  /** The sum of all bytes, those of the checksum itself counted as blanks. */
  function Checksum(b: Bytes): nat
    requires |b| == 512
  {
    Sum(b[..148] + [32, 32, 32, 32, 32, 32, 32, 32] + b[156..])
  }

  /** Every byte of a header block, as the format lays it out. */
  predicate HeaderIs(b: Bytes, h: Header) {
    && |b| == 512
    && TextAt(b, 0, 100, h.name)
    && DigitsAt(b, 100, 7, h.mode) && DigitsAt(b, 108, 7, h.uid) && DigitsAt(b, 116, 7, h.gid)
    && DigitsAt(b, 124, 11, h.size) && DigitsAt(b, 136, 11, h.mtime)
    && DigitsAt(b, 148, 6, Checksum(b)) && b[155] == 32
    && b[156] == h.kind && TextAt(b, 157, 100, h.link)
    && b[257..265] == [117, 115, 116, 97, 114, 0, 48, 48]
    && TextAt(b, 265, 32, h.uname) && TextAt(b, 297, 32, h.gname) && TextAt(b, 329, 16, [])
    && TextAt(b, 345, 155, h.prefix) && TextAt(b, 500, 12, [])
  }

  lemma QuotientIs(n: nat, m: nat, q: nat, r: nat)
    requires n == m * q + r && r < m
    ensures n / m == q
  {
    var d := n / m - q;
    assert m * d == r - n % m;
  }

  lemma DivideTwice(n: nat, p: nat)
    requires p > 0
    ensures n / 8 / p == n / (8 * p)
  {
    var q := n / 8;
    assert q == p * (q / p) + q % p;
    assert 8 * (p * (q / p)) == (8 * p) * (q / p);
    QuotientIs(n, 8 * p, q / p, 8 * (q % p) + n % 8);
  }

  /** Every digit stands for its power of eight. */
  lemma {:induction false} OctalDigits(n: nat, d: nat, i: nat)
    requires i < d
    ensures Octal(n, d)[i] == 48 + n / Power8(d - 1 - i) % 8
  {
    if i < d - 1 {
      OctalDigits(n / 8, d - 1, i);
      DivideTwice(n, Power8(d - 2 - i));
    }
  }

  lemma {:induction false} SumConcat(a: Bytes, b: Bytes)
    ensures Sum(a + b) == Sum(a) + Sum(b)
  {
    if a == [] {
      assert a + b == b;
    } else {
      SumConcat(a[1..], b);
      assert (a + b)[1..] == a[1..] + b;
    }
  }

  lemma Blanks()
    ensures Sum([32, 32, 32, 32, 32, 32, 32, 32]) == 256
  {
    SumConcat([32, 32, 32, 32], [32, 32, 32, 32]);
    SumConcat([32, 32], [32, 32]);
    SumConcat([32], [32]);
    assert [32, 32, 32, 32] + [32, 32, 32, 32] == [32, 32, 32, 32, 32, 32, 32, 32];
    assert [32, 32] + [32, 32] == [32, 32, 32, 32] && [32] + [32] == [32, 32];
  }

  lemma SealedIs(front: Bytes, mid: Bytes, back: Bytes)
    requires |front| == 148 && |mid| == 8 && |back| == 356
    ensures Checksum(front + mid + back) == Sealed(front, back)
  {
    var b := front + mid + back;
    var blanks := [32, 32, 32, 32, 32, 32, 32, 32];
    assert b[..148] == front && b[156..] == back;
    SumConcat(front + blanks, back);
    SumConcat(front, blanks);
    Blanks();
  }

  lemma NumberIs(b: Bytes, at: nat, n: nat, digits: nat)
    requires at + digits < |b| && b[at..at + digits + 1] == Number(n, digits + 1)
    ensures DigitsAt(b, at, digits, n)
  {
    var f := b[at..at + digits + 1];
    assert f[digits] == 0;
    forall k | at <= k < at + digits ensures b[k] == 48 + n / Power8(at + digits - 1 - k) % 8 {
      OctalDigits(n, digits, k - at);
      assert b[k] == f[k - at];
    }
  }

  lemma FieldIs(b: Bytes, at: nat, width: nat, s: Bytes)
    requires |s| <= width && at + width <= |b| && b[at..at + width] == Field(s, width)
    ensures TextAt(b, at, width, s)
  {
    var f := b[at..at + width];
    forall k | at <= k < at + width ensures b[k] == if k - at < |s| then s[k - at] else 0 {
      assert b[k] == f[k - at];
    }
  }

  lemma FrontIs(h: Header, b: Bytes)
    requires Writable(h) && |b| == BLOCK && b[..148] == Front(h)
    ensures TextAt(b, 0, 100, h.name)
    ensures DigitsAt(b, 100, 7, h.mode) && DigitsAt(b, 108, 7, h.uid) && DigitsAt(b, 116, 7, h.gid)
    ensures DigitsAt(b, 124, 11, h.size) && DigitsAt(b, 136, 11, h.mtime)
  {
    FrontParts(h, b);
    FieldIs(b, 0, 100, h.name);
    NumberIs(b, 100, h.mode, 7);
    NumberIs(b, 108, h.uid, 7);
    NumberIs(b, 116, h.gid, 7);
    NumberIs(b, 124, h.size, 11);
    NumberIs(b, 136, h.mtime, 11);
  }

  lemma BackIs(h: Header, b: Bytes)
    requires Writable(h) && |b| == BLOCK && b[156..] == Back(h)
    ensures b[156] == h.kind && TextAt(b, 157, 100, h.link) && b[257..265] == [117, 115, 116, 97, 114, 0, 48, 48]
    ensures TextAt(b, 265, 32, h.uname) && TextAt(b, 297, 32, h.gname) && TextAt(b, 329, 16, [])
    ensures TextAt(b, 345, 155, h.prefix) && TextAt(b, 500, 12, [])
  {
    BackParts(h, b);
    FieldIs(b, 157, 100, h.link);
    FieldIs(b, 265, 32, h.uname);
    FieldIs(b, 297, 32, h.gname);
    FieldIs(b, 329, 16, []);
    FieldIs(b, 345, 155, h.prefix);
    FieldIs(b, 500, 12, []);
  }

  /** What is written is the block the format prescribes. */
  lemma EncodeIs(h: Header)
    requires Writable(h)
    ensures HeaderIs(Encode(h), h)
  {
    var b := Encode(h);
    assert b[..148] == Front(h) && b[156..] == Back(h);
    FrontIs(h, b);
    BackIs(h, b);
    SealIs(Front(h), Back(h), b);
  }

  lemma SealIs(front: Bytes, back: Bytes, b: Bytes)
    requires |front| == 148 && |back| == 356 && b == front + (Octal(Sealed(front, back), 6) + [0, 32]) + back
    ensures |b| == 512 && DigitsAt(b, 148, 6, Checksum(b)) && b[155] == 32
  {
    var sum := Sealed(front, back);
    var mid := Octal(sum, 6) + [0, 32];
    SealedIs(front, mid, back);
    assert b[148..155] == mid[..7] == Number(sum, 7);
    assert b[155] == mid[7];
    NumberIs(b, 148, sum, 6);
  }

  /** The name a reader puts together. */
  function FullName(h: Header): Bytes {
    if h.prefix == [] then h.name else h.prefix + ['/' as nat] + h.name
  }

  // ----- an archive ---------------------------------------------------------

  function Padding(size: nat): (r: nat)
    ensures r < BLOCK && (size + r) % BLOCK == 0
  {
    if size % BLOCK == 0 then 0 else BLOCK - size % BLOCK
  }

  predicate Consistent(m: Member) {
    Writable(m.header) && m.header.size == |m.raw|
  }

  function Block(m: Member): (r: Bytes)
    requires Consistent(m)
    ensures |r| == BLOCK + |m.raw| + Padding(|m.raw|)
  {
    Encode(m.header) + m.raw + Zeros(Padding(|m.raw|))
  }

  predicate AllConsistent(ms: seq<Member>) {
    forall i | 0 <= i < |ms| :: Consistent(ms[i])
  }

  function Blocks(ms: seq<Member>): Bytes
    requires AllConsistent(ms)
  {
    if ms == [] then [] else Blocks(ms[..|ms| - 1]) + Block(ms[|ms| - 1])
  }

  /** Two zero blocks, and zeros up to a full record. */
  function Ending(size: nat): (r: Bytes)
    ensures 2 * BLOCK <= |r| < 2 * BLOCK + RECORD && (size + |r|) % RECORD == 0
    ensures forall c <- r :: c == 0
  {
    var end := size + 2 * BLOCK;
    Zeros(2 * BLOCK + (RECORD - end % RECORD) % RECORD)
  }

  function Archive(ms: seq<Member>): (r: Bytes)
    requires AllConsistent(ms)
  {
    Blocks(ms) + Ending(|Blocks(ms)|)
  }

  // ----- the archive, byte by byte --------------------------------------------

  /** A header and whole blocks of data. */
  function Extent(size: nat): nat {
    512 * (1 + (size + 511) / 512)
  }

  /** Where the member after these begins. */
  function Start(ms: seq<Member>): nat {
    if ms == [] then 0 else Start(ms[..|ms| - 1]) + Extent(|ms[|ms| - 1].raw|)
  }

  /** The header, the data and the zeros behind it. */
  predicate MemberIs(raw: Bytes, at: nat, m: Member) {
    && at + Extent(|m.raw|) <= |raw|
    && HeaderIs(raw[at..at + 512], m.header) && raw[at + 512..at + 512 + |m.raw|] == m.raw
    && forall k | at + 512 + |m.raw| <= k < at + Extent(|m.raw|) :: raw[k] == 0
  }

  /** All members one behind the other. */
  predicate MembersAre(raw: Bytes, ms: seq<Member>) {
    ms == [] || (MembersAre(raw, ms[..|ms| - 1]) && MemberIs(raw, Start(ms[..|ms| - 1]), ms[|ms| - 1]))
  }

  /** So every one is at its place. */
  lemma {:induction false} MemberAt(raw: Bytes, ms: seq<Member>, i: nat)
    requires MembersAre(raw, ms) && i < |ms|
    ensures MemberIs(raw, Start(ms[..i]), ms[i])
  {
    var n := |ms| - 1;
    if i < n {
      MemberAt(raw, ms[..n], i);
      assert ms[..n][..i] == ms[..i] && ms[..n][i] == ms[i];
    } else {
      assert i == n;
    }
  }

  /** Behind the members two blocks of zeros, and zeros up to a whole record. */
  predicate ArchiveIs(raw: Bytes, ms: seq<Member>) {
    && MembersAre(raw, ms)
    && Start(ms) + 1024 <= |raw| < Start(ms) + 1024 + 10240 && |raw| % 10240 == 0
    && forall k | Start(ms) <= k < |raw| :: raw[k] == 0
  }

  lemma ExtentIs(size: nat)
    ensures BLOCK + size + Padding(size) == Extent(size)
  {
  }

  lemma BlockIs(m: Member)
    requires Consistent(m)
    ensures |Block(m)| == Extent(|m.raw|) && MemberIs(Block(m), 0, m)
  {
    ExtentIs(|m.raw|);
    EncodeIs(m.header);
    assert Block(m)[..512] == Block(m)[0..512] == Encode(m.header);
    assert Block(m)[512..512 + |m.raw|] == m.raw;
  }

  lemma SliceMoves(front: Bytes, b: Bytes, more: Bytes, i: nat, j: nat)
    requires i <= j <= |b|
    ensures (front + b + more)[|front| + i..|front| + j] == b[i..j]
  {
  }

  /** A member stays where it is when bytes come before and behind. */
  lemma MemberMoves(front: Bytes, b: Bytes, more: Bytes, at: nat, m: Member)
    requires MemberIs(b, at, m)
    ensures MemberIs(front + b + more, |front| + at, m)
  {
    var raw, n := front + b + more, |front|;
    SliceMoves(front, b, more, at, at + 512);
    SliceMoves(front, b, more, at + 512, at + 512 + |m.raw|);
    forall k | n + at + 512 + |m.raw| <= k < n + at + Extent(|m.raw|) ensures raw[k] == 0 {
      assert raw[k] == b[k - n];
    }
  }

  /** One block behind the others. */
  lemma NextIs(front: Bytes, m: Member, more: Bytes)
    requires Consistent(m)
    ensures MemberIs(front + (Block(m) + more), |front|, m) && |Block(m)| == Extent(|m.raw|)
  {
    BlockIs(m);
    MemberMoves(front, Block(m), more, 0, m);
    Joins(front, Block(m), more);
  }

  lemma {:induction false} BlocksAre(ms: seq<Member>, more: Bytes)
    requires AllConsistent(ms)
    ensures |Blocks(ms)| == Start(ms) && MembersAre(Blocks(ms) + more, ms)
  {
    if ms != [] {
      var n := |ms| - 1;
      BlocksAre(ms[..n], Block(ms[n]) + more);
      NextIs(Blocks(ms[..n]), ms[n], more);
      Joins(Blocks(ms[..n]), Block(ms[n]), more);
    }
  }

  lemma Joins(a: Bytes, b: Bytes, c: Bytes)
    ensures a + (b + c) == a + b + c
  {
  }

  /** What is written is the archive the format prescribes. */
  lemma WrittenIs(ms: seq<Member>)
    requires AllConsistent(ms)
    ensures ArchiveIs(Archive(ms), ms)
  {
    BlocksAre(ms, Ending(|Blocks(ms)|));
    EndingIs(Archive(ms), Blocks(ms), ms);
  }

  lemma EndingIs(raw: Bytes, front: Bytes, ms: seq<Member>)
    requires raw == front + Ending(|front|) && |front| == Start(ms) && MembersAre(raw, ms)
    ensures ArchiveIs(raw, ms)
  {
    forall k | Start(ms) <= k < |raw| ensures raw[k] == 0 {
      assert raw[k] == Ending(|front|)[k - |front|] && Ending(|front|)[k - |front|] in Ending(|front|);
    }
  }

  // ----- and no other bytes are one --------------------------------------------

  predicate SameOn(b: Bytes, b': Bytes, from: nat, to: nat)
    requires to <= |b| && to <= |b'|
  {
    forall k | from <= k < to :: b[k] == b'[k]
  }

  lemma TextUnique(b: Bytes, b': Bytes, at: nat, width: nat, s: Bytes)
    requires at + width <= |b| && at + width <= |b'| && TextAt(b, at, width, s) && TextAt(b', at, width, s)
    ensures SameOn(b, b', at, at + width)
  {
  }

  lemma DigitsUnique(b: Bytes, b': Bytes, at: nat, digits: nat, n: nat)
    requires at + digits < |b| && at + digits < |b'| && DigitsAt(b, at, digits, n) && DigitsAt(b', at, digits, n)
    ensures SameOn(b, b', at, at + digits + 1)
  {
  }

  lemma FrontUnique(b: Bytes, b': Bytes, h: Header)
    requires HeaderIs(b, h) && HeaderIs(b', h)
    ensures b[..148] == b'[..148]
  {
    TextUnique(b, b', 0, 100, h.name);
    DigitsUnique(b, b', 100, 7, h.mode);
    DigitsUnique(b, b', 108, 7, h.uid);
    DigitsUnique(b, b', 116, 7, h.gid);
    DigitsUnique(b, b', 124, 11, h.size);
    DigitsUnique(b, b', 136, 11, h.mtime);
    assert SameOn(b, b', 0, 148);
  }

  lemma BackUnique(b: Bytes, b': Bytes, h: Header)
    requires HeaderIs(b, h) && HeaderIs(b', h)
    ensures b[155..] == b'[155..]
  {
    TextUnique(b, b', 157, 100, h.link);
    TextUnique(b, b', 265, 32, h.uname);
    TextUnique(b, b', 297, 32, h.gname);
    TextUnique(b, b', 329, 16, []);
    TextUnique(b, b', 345, 155, h.prefix);
    TextUnique(b, b', 500, 12, []);
    forall k | 257 <= k < 265 ensures b[k] == b'[k] {
      assert b[k] == b[257..265][k - 257] && b'[k] == b'[257..265][k - 257];
    }
    assert SameOn(b, b', 155, 512);
  }

  lemma HeaderUnique(b: Bytes, b': Bytes, h: Header)
    requires HeaderIs(b, h) && HeaderIs(b', h)
    ensures b == b'
  {
    FrontUnique(b, b', h);
    BackUnique(b, b', h);
    assert b[156..] == b[155..][1..] && b'[156..] == b'[155..][1..];
    assert Checksum(b) == Checksum(b');
    DigitsUnique(b, b', 148, 6, Checksum(b));
    assert b[148..155] == b'[148..155];
    assert b == b[..148] + b[148..155] + b[155..] && b' == b'[..148] + b'[148..155] + b'[155..];
  }

  lemma MemberUnique(raw: Bytes, raw': Bytes, at: nat, m: Member)
    requires MemberIs(raw, at, m) && MemberIs(raw', at, m)
    ensures SameOn(raw, raw', at, at + Extent(|m.raw|))
  {
    HeaderUnique(raw[at..at + 512], raw'[at..at + 512], m.header);
    forall k | at <= k < at + Extent(|m.raw|) ensures raw[k] == raw'[k] {
      if k < at + 512 {
        assert raw[k] == raw[at..at + 512][k - at] && raw'[k] == raw'[at..at + 512][k - at];
      } else if k < at + 512 + |m.raw| {
        assert raw[k] == m.raw[k - at - 512] && raw'[k] == m.raw[k - at - 512];
      }
    }
  }

  lemma {:induction false} MembersUnique(raw: Bytes, raw': Bytes, ms: seq<Member>)
    requires MembersAre(raw, ms) && MembersAre(raw', ms)
    ensures Start(ms) <= |raw| && Start(ms) <= |raw'| && SameOn(raw, raw', 0, Start(ms))
  {
    if ms != [] {
      var init := ms[..|ms| - 1];
      MembersUnique(raw, raw', init);
      MemberUnique(raw, raw', Start(init), ms[|ms| - 1]);
    }
  }

  lemma WholeRecords(n: nat, m: nat, start: nat)
    requires n % 10240 == 0 && m % 10240 == 0
    requires start + 1024 <= n < start + 1024 + 10240 && start + 1024 <= m < start + 1024 + 10240
    ensures n == m
  {
    var a, b := n / 10240, m / 10240;
    assert n == 10240 * a + n % 10240;
    assert m == 10240 * b + m % 10240;
    assert a == b;
  }

  /** The format allows one archive of given members: the one that is written. */
  lemma WrittenIff(raw: Bytes, ms: seq<Member>)
    requires AllConsistent(ms)
    ensures ArchiveIs(raw, ms) <==> raw == Archive(ms)
  {
    WrittenIs(ms);
    if ArchiveIs(raw, ms) {
      OnlyOne(raw, Archive(ms), ms);
    }
  }

  lemma OnlyOne(raw: Bytes, raw': Bytes, ms: seq<Member>)
    requires ArchiveIs(raw, ms) && ArchiveIs(raw', ms)
    ensures raw == raw'
  {
    MembersUnique(raw, raw', ms);
    WholeRecords(|raw|, |raw'|, Start(ms));
  }

  /** The member at the start of `raw`, and what follows it; none at a zero
      block, a bad header or the end. */
  function Next(raw: Bytes): (r: Option<(Member, Bytes)>)
    ensures r.Some? ==> |r.value.1| < |raw|
  {
    if |raw| < BLOCK || raw[..BLOCK] == Zeros(BLOCK) then None
    else
      var h := Decode(raw[..BLOCK]);
      if h.None? || |raw| < BLOCK + h.value.size + Padding(h.value.size) then None
      else
        Some((Member(h.value, raw[BLOCK..BLOCK + h.value.size]), raw[BLOCK + h.value.size + Padding(h.value.size)..]))
  }

  function Members(raw: Bytes): seq<Member>
    decreases |raw|
  {
    var next := Next(raw);
    if next.None? then [] else [next.value.0] + Members(next.value.1)
  }

  lemma NextReads(m: Member, rest: Bytes)
    requires Consistent(m)
    ensures Next(Block(m) + rest) == Some((m, rest))
  {
    EncodeDecodes(m.header);
    assert Encode(m.header)[257] == Back(m.header)[101] == MAGIC[0] != Zeros(BLOCK)[257];
    var raw := Block(m) + rest;
    assert raw == Encode(m.header) + m.raw + Zeros(Padding(|m.raw|)) + rest;
    NextStep(raw, Encode(m.header), m.header, m.raw, Zeros(Padding(|m.raw|)), rest);
  }

  /** One step of the reader, on any text of this shape. */
  lemma NextStep(raw: Bytes, head: Bytes, h: Header, data: Bytes, pad: Bytes, rest: Bytes)
    requires raw == head + data + pad + rest && |head| == BLOCK && head != Zeros(BLOCK)
    requires Decode(head) == Some(h) && h.size == |data| && |pad| == Padding(|data|)
    ensures Next(raw) == Some((Member(h, data), rest))
  {
    assert raw[..BLOCK] == head;
    assert raw[BLOCK..BLOCK + |data|] == data;
    assert raw[BLOCK + |data| + |pad|..] == rest;
  }

  lemma Snoc(ms: seq<Member>, more: seq<Member>)
    requires ms != []
    ensures ms[..|ms| - 1] + ([ms[|ms| - 1]] + more) == ms + more
  {
  }

  lemma {:induction false} BlocksRead(ms: seq<Member>, rest: Bytes)
    requires AllConsistent(ms)
    ensures Members(Blocks(ms) + rest) == ms + Members(rest)
  {
    if ms == [] {
      assert Blocks(ms) + rest == rest;
    } else {
      var n := |ms| - 1;
      var tail := Block(ms[n]) + rest;
      assert Blocks(ms) + rest == Blocks(ms[..n]) + tail;
      BlocksRead(ms[..n], tail);
      NextReads(ms[n], rest);
      Snoc(ms, Members(rest));
    }
  }

  /** Reading back an archive gives the members it was written from. */
  lemma ArchiveReads(ms: seq<Member>)
    requires AllConsistent(ms)
    ensures Members(Archive(ms)) == ms
  {
    var end := Ending(|Blocks(ms)|);
    BlocksRead(ms, end);
    assert end[..BLOCK] == Zeros(BLOCK);
    assert ms + [] == ms;
  }
}
