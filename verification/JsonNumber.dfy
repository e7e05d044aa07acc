/** JSON numbers as Python's reader scans them (RFC 8259, section 6): a sign, an
    integer part, and a fraction or an exponent that make it a float. */
module JsonNumber {
  import Decimals

  predicate IsDigit(c: char) {
    '0' <= c <= '9'
  }

  /** How many digits `s` starts with. */
  function Run(s: string): (k: nat)
    ensures k <= |s| && Decimals.Digits(s[..k])
  {
    if s == [] || !IsDigit(s[0]) then 0
    else
      var k := 1 + Run(s[1..]);
      assert forall i | 1 <= i < k :: s[..k][i] == s[1..][..k - 1][i - 1];
      k
  }

  function Sign(s: string): (k: nat)
    ensures k <= 1 && k <= |s|
  {
    if s != [] && s[0] == '-' then 1 else 0
  }

  /** The length of the sign and the integer part, or none. */
  function IntPart(s: string): (k: nat)
    ensures k <= |s| && (k > 0 ==> k > Sign(s) && Decimals.Digits(s[Sign(s)..k]))
  {
    var d := s[Sign(s)..];
    var run := Run(d);
    if run == 0 then 0
    else
      var k := Sign(s) + (if d[0] == '0' then 1 else run);
      assert s[Sign(s)..k] == d[..k - Sign(s)] && d[..k - Sign(s)] == d[..run][..k - Sign(s)];
      k
  }

  /** The length of a point and digits. */
  function FracPart(s: string): (k: nat)
    ensures k <= |s|
  {
    if s != [] && s[0] == '.' && Run(s[1..]) > 0 then 1 + Run(s[1..]) else 0
  }

  function ExpSign(s: string): (k: nat)
    ensures k <= 1 && k <= |s|
  {
    if s != [] && (s[0] == '+' || s[0] == '-') then 1 else 0
  }

  /** The length of an exponent. */
  function ExpPart(s: string): (k: nat)
    ensures k <= |s|
  {
    if s == [] || (s[0] != 'e' && s[0] != 'E') then 0
    else
      var t := s[1..];
      var digits := Run(t[ExpSign(t)..]);
      if digits > 0 then 1 + ExpSign(t) + digits else 0
  }

  /** The lengths of the three parts. */
  datatype Parts = Parts(whole: nat, frac: nat, exp: nat)

  function Scan(s: string): (p: Parts)
    ensures p.whole + p.frac + p.exp <= |s|
  {
    var i := IntPart(s);
    var f := FracPart(s[i..]);
    Parts(i, f, ExpPart(s[i..][f..]))
  }

  function Length(p: Parts): nat {
    p.whole + p.frac + p.exp
  }

  /** The text of a float, and nothing else. */
  predicate IsLiteral(l: string) {
    var p := Scan(l);
    p.whole > 0 && p.frac + p.exp > 0 && Length(p) == |l|
  }

  lemma OneHalf()
    ensures IsLiteral("0.5")
  {
    var s := "0.5";
    assert Sign(s) == 0 && s[0..] == s && s[0] == '0' && Run(s) > 0 && IntPart(s) == 1;
    assert s[1..] == ".5" && ".5"[1..] == "5" && "5"[1..] == [];
    assert Run("5") == 1 && FracPart(".5") == 2;
    ScanIs(s, ".5", []);
  }

  // ----- scanning depends on the number alone ---------------------------------

  lemma {:induction false} RunTake(s: string, m: nat)
    requires Run(s) <= m <= |s|
    ensures Run(s[..m]) == Run(s)
  {
    if Run(s) > 0 {
      assert s[..m][1..] == s[1..][..m - 1];
      RunTake(s[1..], m - 1);
    }
  }

  lemma {:induction false} RunAppend(s: string, rest: string)
    requires rest == [] || !IsDigit(rest[0])
    ensures Run(s + rest) == Run(s)
  {
    if s == [] {
      assert s + rest == rest;
    } else {
      assert (s + rest)[1..] == s[1..] + rest;
      RunAppend(s[1..], rest);
    }
  }

  /** A number may stand before this. */
  predicate Ends(rest: string) {
    rest == [] || !(IsDigit(rest[0]) || rest[0] == '.' || rest[0] == 'e' || rest[0] == 'E' || rest[0] == '+' || rest[0] == '-')
  }

  lemma IntTake(s: string, m: nat)
    requires IntPart(s) <= m <= |s| && IntPart(s) > 0
    ensures IntPart(s[..m]) == IntPart(s)
  {
    var d, k := s[Sign(s)..], Sign(s);
    assert s[..m][k..] == d[..m - k];
    if d[0] == '0' {
      assert Run(d[..m - k]) > 0;
    } else {
      RunTake(d, m - k);
    }
  }

  lemma IntAppend(s: string, rest: string)
    requires IntPart(s) > 0 && Ends(rest)
    ensures IntPart(s + rest) == IntPart(s)
  {
    assert (s + rest)[Sign(s)..] == s[Sign(s)..] + rest;
    RunAppend(s[Sign(s)..], rest);
  }

  lemma FracTake(s: string, m: nat)
    requires FracPart(s) <= m <= |s|
    ensures FracPart(s[..m]) == FracPart(s)
  {
    if m > 0 && s[0] == '.' {
      assert s[..m][1..] == s[1..][..m - 1];
      if Run(s[1..]) > 0 {
        RunTake(s[1..], m - 1);
      } else {
        RunNone(s[1..], m - 1);
      }
    }
  }

  lemma RunNone(s: string, m: nat)
    requires Run(s) == 0 && m <= |s|
    ensures Run(s[..m]) == 0
  {
  }

  lemma FracAppend(s: string, rest: string)
    requires Ends(rest)
    ensures FracPart(s + rest) == FracPart(s)
  {
    if s == [] {
      assert s + rest == rest;
    } else {
      assert (s + rest)[1..] == s[1..] + rest;
      RunAppend(s[1..], rest);
    }
  }

  lemma ExpWhole(s: string)
    ensures ExpPart(s[..ExpPart(s)]) == ExpPart(s)
  {
    var e := ExpPart(s);
    if e > 0 {
      var t := s[1..];
      var x := ExpSign(t);
      assert s[..e][1..] == t[..e - 1] && t[..e - 1][x..] == t[x..][..e - 1 - x];
      RunTake(t[x..], e - 1 - x);
    }
  }

  lemma SignedRunAppend(t: string, rest: string)
    requires Ends(rest)
    ensures ExpSign(t + rest) == ExpSign(t)
    ensures Run((t + rest)[ExpSign(t)..]) == Run(t[ExpSign(t)..])
  {
    if t == [] {
      assert t + rest == rest && rest[0..] == rest && t[0..] == t;
    } else {
      assert (t + rest)[0] == t[0];
    }
    assert (t + rest)[ExpSign(t)..] == t[ExpSign(t)..] + rest;
    RunAppend(t[ExpSign(t)..], rest);
  }

  lemma ExpAppend(s: string, rest: string)
    requires Ends(rest)
    ensures ExpPart(s + rest) == ExpPart(s)
  {
    if s == [] {
      assert s + rest == rest;
    } else {
      assert (s + rest)[1..] == s[1..] + rest;
      SignedRunAppend(s[1..], rest);
    }
  }

  lemma TakeDrop(s: string, n: nat, k: nat)
    requires k <= n <= |s|
    ensures s[..n][k..] == s[k..][..n - k]
  {
  }

  lemma ScanIs(s: string, t: string, u: string)
    requires IntPart(s) + |t| == |s| && s[IntPart(s)..] == t
    requires FracPart(t) + |u| == |t| && t[FracPart(t)..] == u
    ensures Scan(s) == Parts(IntPart(s), FracPart(t), ExpPart(u))
  {
  }

  /** What is scanned is a number by itself, with the same parts. */
  lemma ScanTake(s: string)
    requires Scan(s).whole > 0
    ensures Scan(s[..Length(Scan(s))]) == Scan(s)
  {
    var p, n := Scan(s), Length(Scan(s));
    var t := s[p.whole..];
    IntTake(s, n);
    TakeDrop(s, n, p.whole);
    FracTake(t, p.frac + p.exp);
    TakeDrop(t, p.frac + p.exp, p.frac);
    ExpWhole(t[p.frac..]);
    var whole, tail := s[..n], t[..p.frac + p.exp];
    assert n - p.whole == p.frac + p.exp;
    assert whole[IntPart(whole)..] == tail && tail[p.frac..] == t[p.frac..][..p.exp];
    ScanIs(whole, tail, t[p.frac..][..p.exp]);
  }

  /** A number is scanned whole whatever may follow it. */
  lemma ScanAppend(s: string, rest: string)
    requires Scan(s).whole > 0 && Ends(rest)
    ensures Scan(s + rest) == Scan(s)
  {
    var p := Scan(s);
    IntAppend(s, rest);
    assert (s + rest)[p.whole..] == s[p.whole..] + rest;
    FracAppend(s[p.whole..], rest);
    assert (s[p.whole..] + rest)[p.frac..] == s[p.whole..][p.frac..] + rest;
    ExpAppend(s[p.whole..][p.frac..], rest);
    var tail, end := s[p.whole..] + rest, s[p.whole..][p.frac..] + rest;
    ScanIs(s + rest, tail, end);
  }
}
