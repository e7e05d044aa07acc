/** JSON strings as Python writes them in ASCII and reads them back
    (RFC 8259, section 7): escapes, and surrogate pairs beyond 16 bits. */
module JsonText {
  import opened Wrappers

  type Code = c: nat | c < 0x110000

  /** A Python string: code points, lone surrogates included. */
  type Text = seq<Code>

  predicate High(c: nat) {
    0xD800 <= c < 0xDC00
  }

  predicate Low(c: nat) {
    0xDC00 <= c < 0xE000
  }

  /** No split pair: a pair of surrogates would be read back as one character. */
  predicate Whole(t: Text) {
    forall i | 0 < i < |t| :: !(High(t[i - 1]) && Low(t[i]))
  }

  // ----- writing ------------------------------------------------------------

  function HexDigit(d: nat): char
    requires d < 16
  {
    if d < 10 then (48 + d) as char else (87 + d) as char
  }

  function Unit(u: nat): (r: string)
    requires u < 0x10000
    ensures |r| == 6
  {
    ['\\', 'u', HexDigit(u / 16 / 16 / 16), HexDigit(u / 16 / 16 % 16), HexDigit(u / 16 % 16), HexDigit(u % 16)]
  }

  function WriteChar(c: Code): (r: string)
    ensures r != []
  {
    if c == 34 then ['\\', '"']
    else if c == 92 then ['\\', '\\']
    else if c == 8 then ['\\', 'b']
    else if c == 9 then ['\\', 't']
    else if c == 10 then ['\\', 'n']
    else if c == 12 then ['\\', 'f']
    else if c == 13 then ['\\', 'r']
    else if 32 <= c < 127 then [c as char]
    else if c < 0x10000 then Unit(c)
    else Unit(Leading(c)) + Unit(Trailing(c))
  }

  /** The surrogate pair of a character beyond 16 bits. */
  function Leading(c: Code): (u: nat)
    requires 0x10000 <= c
    ensures High(u)
  {
    0xD800 + (c - 0x10000) / 1024
  }

  function Trailing(c: Code): (u: nat)
    requires 0x10000 <= c
    ensures Low(u)
  {
    0xDC00 + (c - 0x10000) % 1024
  }

  function Combine(high: nat, low: nat): (c: Code)
    requires High(high) && Low(low)
    ensures 0x10000 <= c
  {
    0x10000 + 1024 * (high - 0xD800) + (low - 0xDC00)
  }

  function WriteChars(t: Text): string
  {
    if t == [] then [] else WriteChar(t[0]) + WriteChars(t[1..])
  }

  function WriteText(t: Text): (r: string)
    ensures r != [] && r[0] == '"'
  {
    ['"'] + WriteChars(t) + ['"']
  }

  // ----- reading ------------------------------------------------------------

  function HexValue(c: char): Option<nat> {
    if '0' <= c <= '9' then Some(c as nat - 48)
    else if 'a' <= c <= 'f' then Some(c as nat - 87)
    else if 'A' <= c <= 'F' then Some(c as nat - 55)
    else None
  }

  /** `\uXXXX` at the start of `s`. */
  function ReadUnit(s: string): (r: Option<nat>)
    ensures r.Some? ==> |s| >= 6 && r.value < 0x10000
  {
    if |s| < 6 || s[0] != '\\' || s[1] != 'u' then None
    else
      var a, b, c, d := HexValue(s[2]), HexValue(s[3]), HexValue(s[4]), HexValue(s[5]);
      if a.None? || b.None? || c.None? || d.None? then None
      else Some(4096 * a.value + 256 * b.value + 16 * c.value + d.value)
  }

  function Simple(c: char): Option<Code> {
    if c == '"' || c == '\\' || c == '/' then Some(c as nat)
    else if c == 'b' then Some(8) else if c == 't' then Some(9) else if c == 'n' then Some(10)
    else if c == 'f' then Some(12) else if c == 'r' then Some(13) else None
  }

  /** One character of a string, not its closing quote. */
  function ReadChar(s: string): (r: Option<(Code, string)>)
    ensures r.Some? ==> |r.value.1| < |s|
  {
    if s == [] || s[0] < ' ' || s[0] >= 128 as char then None
    else if s[0] != '\\' then Some((s[0] as nat, s[1..]))
    else if |s| < 2 then None
    else if s[1] != 'u' then
      var c := Simple(s[1]);
      if c.None? then None else Some((c.value, s[2..]))
    else
      var u := ReadUnit(s);
      if u.None? then None
      else
        var l := ReadUnit(s[6..]);
        if High(u.value) && l.Some? && Low(l.value)
        then Some((Combine(u.value, l.value), s[12..]))
        else Some((u.value, s[6..]))
  }

  /** The rest of a string and what follows its closing quote. */
  function ReadChars(s: string): (r: Option<(Text, string)>)
    ensures r.Some? ==> |r.value.1| < |s|
    decreases |s|
  {
    if s != [] && s[0] == '"' then Some(([], s[1..]))
    else
      var c := ReadChar(s);
      if c.None? then None
      else
        var more := ReadChars(c.value.1);
        if more.None? then None else Some(([c.value.0] + more.value.0, more.value.1))
  }

  // ----- what is written reads back -----------------------------------------

  lemma HexReads(d: nat)
    requires d < 16
    ensures HexValue(HexDigit(d)) == Some(d)
  {
  }

  lemma FourDigits(u: nat)
    ensures 4096 * (u / 16 / 16 / 16) + 256 * (u / 16 / 16 % 16) + 16 * (u / 16 % 16) + u % 16 == u
  {
    var a := u / 16;
    var b := a / 16;
    assert u == 16 * a + u % 16 && a == 16 * b + a % 16 && b == 16 * (b / 16) + b % 16;
  }

  lemma UnitReads(u: nat, rest: string)
    requires u < 0x10000
    ensures ReadUnit(Unit(u) + rest) == Some(u)
    ensures (Unit(u) + rest)[6..] == rest
  {
    var x, s := Unit(u), Unit(u) + rest;
    assert s[0] == x[0] && s[1] == x[1] && s[2] == x[2] && s[3] == x[3] && s[4] == x[4] && s[5] == x[5];
    HexReads(u / 16 / 16 / 16);
    HexReads(u / 16 / 16 % 16);
    HexReads(u / 16 % 16);
    HexReads(u % 16);
    FourDigits(u);
  }

  /** What follows a character is not a low surrogate's escape. */
  predicate NotLow(s: string) {
    var u := ReadUnit(s);
    u.None? || !Low(u.value)
  }

  lemma PairCombines(c: Code)
    requires 0x10000 <= c
    ensures Combine(Leading(c), Trailing(c)) == c
  {
    var n := c - 0x10000;
    assert n == 1024 * (n / 1024) + n % 1024;
  }

  lemma PairReads(c: Code, rest: string)
    requires 0x10000 <= c
    ensures ReadChar(WriteChar(c) + rest) == Some((c, rest))
    ensures ReadUnit(WriteChar(c) + rest) == Some(Leading(c))
  {
    var first, second := Unit(Leading(c)), Unit(Trailing(c)) + rest;
    var s := WriteChar(c) + rest;
    assert s == first + second;
    UnitReads(Leading(c), second);
    UnitReads(Trailing(c), rest);
    PairCombines(c);
    assert s[6..] == second && s[12..] == second[6..];
    assert s[0] == '\\' && s[1] == 'u';
  }

  lemma UnitCharReads(c: nat, rest: string)
    requires c < 0x10000 && (High(c) ==> NotLow(rest))
    ensures ReadChar(Unit(c) + rest) == Some((c, rest))
  {
    UnitReads(c, rest);
    assert (Unit(c) + rest)[0] == '\\' && (Unit(c) + rest)[1] == 'u';
  }

  lemma CharReads(c: Code, rest: string)
    requires High(c) ==> NotLow(rest)
    ensures ReadChar(WriteChar(c) + rest) == Some((c, rest))
    ensures (WriteChar(c) + rest)[0] != '"'
  {
    var s := WriteChar(c) + rest;
    if c >= 0x10000 {
      PairReads(c, rest);
    } else if c >= 127 || (c < 32 && c !in [8, 9, 10, 12, 13]) {
      UnitCharReads(c, rest);
    } else if c == 34 || c == 92 || c < 32 {
      assert s[2..] == rest;
    } else {
      assert s[1..] == rest;
    }
  }

  /** The written form of a character that is no low surrogate does not look like one. */
  lemma WrittenNotLow(c: Code, rest: string)
    requires !Low(c)
    ensures NotLow(WriteChar(c) + rest)
  {
    if c >= 0x10000 {
      PairReads(c, rest);
    } else if c >= 127 || (c < 32 && c !in [8, 9, 10, 12, 13]) {
      UnitReads(c, rest);
    }
  }

  /** What follows the first character of a whole text, up to its closing quote. */
  lemma TailNotLow(t: Text, rest: string)
    requires Whole(t) && t != [] && High(t[0])
    ensures NotLow(Closed(t[1..], rest))
  {
    if |t| > 1 {
      ClosedSplits(t[1..], rest);
      WrittenNotLow(t[1], Closed(t[1..][1..], rest));
    } else {
      assert Closed(t[1..], rest) == ['"'] + rest;
    }
  }

  function Closed(t: Text, rest: string): string
  {
    WriteChars(t) + ['"'] + rest
  }

  lemma ClosedSplits(t: Text, rest: string)
    requires t != []
    ensures Closed(t, rest) == WriteChar(t[0]) + Closed(t[1..], rest)
  {
  }

  /** A whole text reads back. */
  lemma {:induction false} CharsRead(t: Text, rest: string)
    requires Whole(t)
    ensures ReadChars(Closed(t, rest)) == Some((t, rest))
  {
    if t == [] {
      assert Closed(t, rest) == ['"'] + rest;
    } else {
      var tail := Closed(t[1..], rest);
      ClosedSplits(t, rest);
      if High(t[0]) {
        TailNotLow(t, rest);
      }
      CharReads(t[0], tail);
      CharsRead(t[1..], rest);
      ReadOn(Closed(t, rest), t[0], tail, t[1..], rest);
      assert [t[0]] + t[1..] == t;
    }
  }

  lemma ReadOn(s: string, c: Code, tail: string, more: Text, rest: string)
    requires s != [] && s[0] != '"' && ReadChar(s) == Some((c, tail)) && ReadChars(tail) == Some((more, rest))
    ensures ReadChars(s) == Some(([c] + more, rest))
  {
  }

  // ----- what is written, character by character --------------------------------

  const DIGITS: string := "0123456789abcdef"

  /** `\u` and the four digits of the number, the highest first. */
  predicate IsEscape(s: string, u: nat)
    requires u < 0x10000
  {
    s == ['\\', 'u', DIGITS[u / 0x1000], DIGITS[u / 0x100 % 16], DIGITS[u / 0x10 % 16], DIGITS[u % 16]]
  }

  lemma DigitIs(d: nat)
    requires d < 16
    ensures HexDigit(d) == DIGITS[d]
  {
  }

  lemma UnitIs(u: nat)
    requires u < 0x10000
    ensures IsEscape(Unit(u), u)
  {
    assert u / 16 / 16 / 16 == u / 0x1000 && u / 16 / 16 == u / 0x100;
    DigitIs(u / 0x1000);
    DigitIs(u / 0x100 % 16);
    DigitIs(u / 0x10 % 16);
    DigitIs(u % 16);
  }

  /** The letter of a short escape, or a blank. */
  function ShortEscape(c: Code): char {
    match c
    case 0x08 => 'b'
    case 0x09 => 't'
    case 0x0A => 'n'
    case 0x0C => 'f'
    case 0x0D => 'r'
    case 0x22 => '"'
    case 0x5C => '\\'
    case _ => ' '
  }

  /** Printable ASCII but quote and backslash stands for itself; seven characters have
      a short escape; everything else is one escape, or two of a surrogate pair. */
  predicate IsWritten(s: string, c: Code) {
    if ShortEscape(c) != ' ' then s == ['\\', ShortEscape(c)]
    else if ' ' as nat <= c <= '~' as nat then s == [c as char]
    else if c < 0x10000 then IsEscape(s, c)
    else IsPair(s, 0xD800 + (c - 0x10000) / 0x400, 0xDC00 + (c - 0x10000) % 0x400)
  }

  predicate IsPair(s: string, high: nat, low: nat)
    requires high < 0x10000 && low < 0x10000
  {
    |s| == 12 && IsEscape(s[..6], high) && IsEscape(s[6..], low)
  }

  lemma PairIs(high: nat, low: nat)
    requires High(high) && Low(low)
    ensures IsPair(Unit(high) + Unit(low), high, low)
  {
    UnitIs(high);
    UnitIs(low);
    var s := Unit(high) + Unit(low);
    assert s[..6] == Unit(high) && s[6..] == Unit(low);
  }

  lemma ShortIs(c: Code)
    ensures ShortEscape(c) != ' ' ==> WriteChar(c) == ['\\', ShortEscape(c)]
    ensures ShortEscape(c) == ' ' && ' ' as nat <= c <= '~' as nat ==> WriteChar(c) == [c as char]
    ensures ShortEscape(c) == ' ' && c < 0x10000 && !(' ' as nat <= c <= '~' as nat) ==> WriteChar(c) == Unit(c)
  {
  }

  lemma CharIs(c: Code)
    ensures IsWritten(WriteChar(c), c)
  {
    if c >= 0x10000 {
      PairIs(Leading(c), Trailing(c));
    } else {
      ShortIs(c);
      UnitIs(c);
    }
  }

  // ----- what is read is whole ----------------------------------------------

  /** After a lone high surrogate no low one is read. */
  lemma NoSplitPair(s: string)
    requires ReadChar(s).Some? && High(ReadChar(s).value.0)
    ensures var rest := ReadChar(s).value.1; ReadChar(rest).Some? ==> !Low(ReadChar(rest).value.0)
  {
  }

  lemma {:induction false} ReadIsWhole(s: string)
    requires ReadChars(s).Some?
    ensures Whole(ReadChars(s).value.0)
    decreases |s|
  {
    if s[0] != '"' {
      var c := ReadChar(s).value;
      ReadIsWhole(c.1);
      var more := ReadChars(c.1).value.0;
      if more != [] && High(c.0) {
        NoSplitPair(s);
      }
      assert ReadChars(s).value.0 == [c.0] + more;
    }
  }
}
