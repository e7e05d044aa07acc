/** What the scanner of `JsonNumber` takes as a float, by the grammar of RFC 8259,
    section 6: a number with a fraction or an exponent and nothing else. */
module JsonGrammar {
  import Decimals
  import opened JsonNumber

  predicate IsSign(s: string) {
    s == "" || s == "-"
  }

  /** A single zero, or digits that do not begin with one. */
  predicate IsInt(s: string) {
    s != "" && Decimals.Digits(s) && (s[0] == '0' ==> |s| == 1)
  }

  predicate IsFrac(s: string) {
    s != "" ==> s[0] == '.' && |s| > 1 && Decimals.Digits(s[1..])
  }

  /** `e` or `E`, perhaps a sign, and digits. */
  predicate IsExp(s: string) {
    s != "" ==>
      && (s[0] == 'e' || s[0] == 'E') && |s| > 1
      && if s[1] == '+' || s[1] == '-' then |s| > 2 && Decimals.Digits(s[2..]) else Decimals.Digits(s[1..])
  }

  ghost predicate IsFloat(l: string) {
    exists sign, whole, frac, exp :: Composes(l, sign, whole, frac, exp)
  }

  predicate Composes(l: string, sign: string, whole: string, frac: string, exp: string) {
    && IsSign(sign) && IsInt(whole) && IsFrac(frac) && IsExp(exp) && (frac != "" || exp != "")
    && l == sign + (whole + (frac + exp))
  }

  // ----- what is scanned has the parts ------------------------------------------

  lemma IntIs(s: string)
    requires IntPart(s) > 0
    ensures IsSign(s[..Sign(s)]) && IsInt(s[Sign(s)..IntPart(s)])
  {
    var d := s[Sign(s)..];
    assert s[..Sign(s)] == if Sign(s) == 1 then "-" else "";
    assert s[Sign(s)..IntPart(s)] == d[..IntPart(s) - Sign(s)];
  }

  lemma FracIs(s: string)
    ensures IsFrac(s[..FracPart(s)])
  {
    if FracPart(s) > 0 {
      assert s[..FracPart(s)][1..] == s[1..][..Run(s[1..])];
    }
  }

  lemma ExpIs(s: string)
    ensures IsExp(s[..ExpPart(s)])
  {
    if ExpPart(s) > 0 {
      var t, e := s[1..], s[..ExpPart(s)];
      var x := ExpSign(t);
      assert e[1 + x..] == t[x..][..Run(t[x..])];
    }
  }

  lemma Cut(l: string, k: nat, w: nat, f: nat)
    requires k <= w && w + f <= |l|
    ensures l == l[..k] + (l[k..w] + (l[w..][..f] + l[w..][f..]))
  {
  }

  lemma PartsAre(l: string, w: nat, f: nat, e: nat)
    requires w > 0 && IntPart(l) == w && FracPart(l[w..]) == f && ExpPart(l[w..][f..]) == e && w + f + e == |l|
    ensures IsSign(l[..Sign(l)]) && IsInt(l[Sign(l)..w]) && IsFrac(l[w..][..f]) && IsExp(l[w..][f..])
  {
    IntIs(l);
    FracIs(l[w..]);
    ExpIs(l[w..][f..]);
    assert l[w..][f..][..e] == l[w..][f..];
  }

  lemma LiteralIsFloat(l: string)
    requires IsLiteral(l)
    ensures IsFloat(l)
  {
    var p := Scan(l);
    var sign, whole, frac, exp := l[..Sign(l)], l[Sign(l)..p.whole], l[p.whole..][..p.frac], l[p.whole..][p.frac..];
    PartsAre(l, p.whole, p.frac, p.exp);
    Cut(l, Sign(l), p.whole, p.frac);
    assert |frac| == p.frac && |exp| == p.exp;
    Compose(l, sign, whole, frac, exp);
  }

  lemma Compose(l: string, sign: string, whole: string, frac: string, exp: string)
    requires IsSign(sign) && IsInt(whole) && IsFrac(frac) && IsExp(exp) && |frac| + |exp| > 0
    requires l == sign + (whole + (frac + exp))
    ensures IsFloat(l)
  {
    assert Composes(l, sign, whole, frac, exp);
  }

  // ----- and the parts are scanned ------------------------------------------------

  lemma {:induction false} RunIs(d: string, rest: string)
    requires Decimals.Digits(d) && (rest == "" || !IsDigit(rest[0]))
    ensures Run(d + rest) == |d|
  {
    if d == "" {
      assert d + rest == rest;
    } else {
      assert (d + rest)[1..] == d[1..] + rest;
      RunIs(d[1..], rest);
    }
  }

  lemma IntScans(sign: string, whole: string, rest: string)
    requires IsSign(sign) && IsInt(whole) && (rest == "" || !IsDigit(rest[0]))
    ensures IntPart(sign + (whole + rest)) == |sign| + |whole|
  {
    var s := sign + (whole + rest);
    assert (whole + rest)[0] == whole[0] && Sign(s) == |sign|;
    assert s[|sign|..] == whole + rest;
    RunIs(whole, rest);
  }

  lemma FracScans(frac: string, rest: string)
    requires IsFrac(frac) && (rest == "" || rest[0] == 'e' || rest[0] == 'E')
    ensures FracPart(frac + rest) == |frac|
  {
    if frac == "" {
      assert frac + rest == rest;
    } else {
      assert (frac + rest)[1..] == frac[1..] + rest;
      RunIs(frac[1..], rest);
    }
  }

  lemma ExpScans(exp: string)
    requires IsExp(exp)
    ensures ExpPart(exp) == |exp|
  {
    if exp != "" {
      var t := exp[1..];
      var x := ExpSign(t);
      assert t[x..] + "" == t[x..];
      assert t[x..] == exp[1 + x..];
      RunIs(t[x..], "");
    }
  }

  lemma FloatIsLiteral(l: string, sign: string, whole: string, frac: string, exp: string)
    requires Composes(l, sign, whole, frac, exp)
    ensures IsLiteral(l)
  {
    IntScans(sign, whole, frac + exp);
    FracScans(frac, exp);
    ExpScans(exp);
    assert l[|sign| + |whole|..] == frac + exp && (frac + exp)[|frac|..] == exp;
    ScanIs(l, frac + exp, exp);
  }

  /** A float by the scanner is a float by the grammar. */
  lemma LiteralIff(l: string)
    ensures IsLiteral(l) <==> IsFloat(l)
  {
    if IsLiteral(l) {
      LiteralIsFloat(l);
    }
    if sign, whole, frac, exp :| Composes(l, sign, whole, frac, exp) {
      FloatIsLiteral(l, sign, whole, frac, exp);
    }
  }
}
