/** The canonical JSON gate: what is written in canonical form reads back, and
    bytes are accepted only if they are their own value's canonical form
    (`parse_analytics_request` and `canonical_bytes` in
    `deployment/analytics_execution.py` and `deployment/policy.py`; RFC 8259). */
module CanonicalJson {
  import opened Wrappers
  import Decimals
  import opened JsonNumber
  import opened JsonText

  /** A float is kept as its text; what Python makes of that text is `FloatsCanonical`. */
  type Literal = l: string | IsLiteral(l) ghost witness (OneHalf(); "0.5")

  datatype Json = Null | Bool(b: bool) | Number(n: int) | Float(l: Literal) | String(t: Text)
                | Array(items: Items) | Object(fields: Fields)

  datatype Items = End | Item(head: Json, tail: Items)

  /** The pairs of an object: of a Python dict in key order, or as they are read. */
  datatype Fields = Close | Field(key: Text, value: Json, rest: Fields)

  /** Python's order of strings. */
  predicate Before(a: Text, b: Text) {
    b != [] && (a == [] || a[0] < b[0] || (a[0] == b[0] && Before(a[1..], b[1..])))
  }

  lemma {:induction false} BeforeTotal(a: Text, b: Text)
    ensures !(Before(a, b) && Before(b, a))
    ensures a != b ==> Before(a, b) || Before(b, a)
  {
    if a != [] && b != [] {
      BeforeTotal(a[1..], b[1..]);
      if a[0] == b[0] && a[1..] == b[1..] {
        assert a == [a[0]] + a[1..] && b == [b[0]] + b[1..];
      }
    }
  }

  lemma {:induction false} BeforeTransitive(a: Text, b: Text, c: Text)
    requires Before(a, b) && Before(b, c)
    ensures Before(a, c)
  {
    if a != [] && a[0] == b[0] && b[0] == c[0] {
      BeforeTransitive(a[1..], b[1..], c[1..]);
    }
  }

  /** Keys in order, so each once. */
  predicate Ascending(fs: Fields) {
    fs.Field? && fs.rest.Field? ==> Before(fs.key, fs.rest.key) && Ascending(fs.rest)
  }

  /** A value as reading can give it: whole strings, dicts in key order. */
  predicate Good(v: Json) {
    match v
    case String(t) => Whole(t)
    case Array(items) => GoodItems(items)
    case Object(fields) => Ascending(fields) && GoodFields(fields)
    case _ => true
  }

  predicate GoodItems(items: Items) {
    items.Item? ==> Good(items.head) && GoodItems(items.tail)
  }

  predicate GoodFields(fs: Fields) {
    fs.Field? ==> Whole(fs.key) && Good(fs.value) && GoodFields(fs.rest)
  }

  // ----- writing ------------------------------------------------------------

  function Write(v: Json): (r: string)
    ensures r != []
  {
    match v
    case Null => "null"
    case Bool(b) => if b then "true" else "false"
    case Number(n) => if n < 0 then ['-'] + Decimals.Decimal(-n) else Decimals.Decimal(n)
    case Float(l) => l
    case String(t) => WriteText(t)
    case Array(items) => ['['] + WriteItems(items) + [']']
    case Object(fields) => ['{'] + WriteFields(fields) + ['}']
  }

  function WriteItems(items: Items): string {
    match items
    case End => []
    case Item(head, tail) => Write(head) + (if tail.End? then [] else [',']) + WriteItems(tail)
  }

  function WriteFields(fs: Fields): string {
    match fs
    case Close => []
    case Field(key, value, rest) =>
      WriteText(key) + [':'] + Write(value) + (if rest.Close? then [] else [',']) + WriteFields(rest)
  }

  /** `canonical_bytes`. */
  function Bytes(v: Json): string {
    Write(v) + ['\n']
  }

  // ----- reading ------------------------------------------------------------

  predicate Blank(c: char) {
    c == ' ' || c == '\t' || c == '\n' || c == '\r'
  }

  function Skip(s: string): (r: string)
    ensures |r| <= |s|
  {
    if s != [] && Blank(s[0]) then Skip(s[1..]) else s
  }

  /** An integer, or a float as its text. */
  function ReadNumber(s: string): (r: Option<(Json, string)>)
    ensures r.Some? ==> |r.value.1| < |s|
  {
    var p := Scan(s);
    if p.whole == 0 then None
    else if p.frac + p.exp == 0 then
      var value: int := Decimals.ValueOf(s[Sign(s)..p.whole]);
      Some((Number(if Sign(s) == 1 then -value else value), s[p.whole..]))
    else
      ScanTake(s);
      Some((Float(s[..Length(p)]), s[Length(p)..]))
  }

  function Insert(key: Text, value: Json, fs: Fields): Option<Fields> {
    if fs.Close? || Before(key, fs.key) then Some(Field(key, value, fs))
    else if key == fs.key then None
    else
      var more := Insert(key, value, fs.rest);
      if more.None? then None else Some(fs.(rest := more.value))
  }

  /** The dict of the pairs read, refused if a key repeats. */
  function Collect(fs: Fields): Option<Fields> {
    if fs.Close? then Some(Close)
    else
      var more := Collect(fs.rest);
      if more.None? then None else Insert(fs.key, fs.value, more.value)
  }

  function After(s: string, word: string, v: Json): (r: Option<(Json, string)>)
    requires word != []
    ensures r.Some? ==> |r.value.1| < |s|
  {
    if word <= s then Some((v, s[|word|..])) else None
  }

  function ReadValue(s: string): (r: Option<(Json, string)>)
    ensures r.Some? ==> |r.value.1| < |s|
    decreases |s|, 0
  {
    if s == [] then None
    else if s[0] == '"' then
      var t := ReadChars(s[1..]);
      if t.None? then None else Some((String(t.value.0), t.value.1))
    else if s[0] == '[' then
      var inner := Skip(s[1..]);
      if inner != [] && inner[0] == ']' then Some((Array(End), inner[1..]))
      else
        var items := ReadItems(inner);
        if items.None? then None else Some((Array(items.value.0), items.value.1))
    else if s[0] == '{' then
      var inner := Skip(s[1..]);
      if inner != [] && inner[0] == '}' then Some((Object(Close), inner[1..]))
      else
        var pairs := ReadFields(inner);
        if pairs.None? then None
        else
          var dict := Collect(pairs.value.0);
          if dict.None? then None else Some((Object(dict.value), pairs.value.1))
    else if s[0] == 'n' then After(s, "null", Null)
    else if s[0] == 't' then After(s, "true", Bool(true))
    else if s[0] == 'f' then After(s, "false", Bool(false))
    else ReadNumber(s)
  }

  /** One item or more, up to the closing bracket. */
  function ReadItems(s: string): (r: Option<(Items, string)>)
    ensures r.Some? ==> |r.value.1| < |s| && r.value.0.Item?
    decreases |s|, 1
  {
    var v := ReadValue(s);
    if v.None? then None
    else
      var next := Skip(v.value.1);
      if next == [] then None
      else if next[0] == ']' then Some((Item(v.value.0, End), next[1..]))
      else if next[0] != ',' then None
      else
        var more := ReadItems(Skip(next[1..]));
        if more.None? then None else Some((Item(v.value.0, more.value.0), more.value.1))
  }

  /** One pair or more, up to the closing brace. */
  function ReadFields(s: string): (r: Option<(Fields, string)>)
    ensures r.Some? ==> |r.value.1| < |s| && r.value.0.Field?
    decreases |s|, 1
  {
    if s == [] || s[0] != '"' then None
    else
      var key := ReadChars(s[1..]);
      if key.None? then None
      else
        var colon := Skip(key.value.1);
        if colon == [] || colon[0] != ':' then None
        else
          var v := ReadValue(Skip(colon[1..]));
          if v.None? then None
          else
            var next := Skip(v.value.1);
            if next == [] then None
            else if next[0] == '}' then Some((Field(key.value.0, v.value.0, Close), next[1..]))
            else if next[0] != ',' then None
            else
              var more := ReadFields(Skip(next[1..]));
              if more.None? then None else Some((Field(key.value.0, v.value.0, more.value.0), more.value.1))
  }

  /** The whole text is one value. */
  function Decode(s: string): Option<Json> {
    var v := ReadValue(Skip(s));
    if v.None? || Skip(v.value.1) != [] then None else Some(v.value.0)
  }

  // ----- what is written reads back -----------------------------------------

  /** Where a value written in canonical form ends. */
  predicate Stops(rest: string) {
    rest == [] || rest[0] == ',' || rest[0] == ']' || rest[0] == '}' || rest[0] == '\n'
  }

  lemma {:induction false} RunDigits(d: string)
    requires Decimals.Digits(d)
    ensures Run(d) == |d|
  {
    if d != [] {
      RunDigits(d[1..]);
    }
  }

  lemma DigitsScan(d: string)
    requires Decimals.Canonical(d)
    ensures Scan(d) == Parts(|d|, 0, 0) && Scan(['-'] + d) == Parts(|d| + 1, 0, 0)
  {
    RunDigits(d);
    assert d[0..] == d && (['-'] + d)[1..] == d;
    if d[0] == '0' {
      assert |d| == 1;
    }
  }

  /** A text scanned as plain digits, without and with a sign. */
  lemma PlainNumber(s: string, d: string, rest: string)
    requires Decimals.Canonical(d) && |d| <= |s| && s[..|d|] == d && s[|d|..] == rest
    requires Scan(s) == Parts(|d|, 0, 0)
    ensures ReadNumber(s) == Some((Number(Decimals.ValueOf(d)), rest))
  {
    assert s[0] == s[..|d|][0] && IsDigit(d[0]);
    assert s[0..|d|] == d;
  }

  lemma SignedNumber(s: string, d: string, rest: string)
    requires Decimals.Canonical(d) && |d| + 1 <= |s| && s[0] == '-'
    requires s[1..|d| + 1] == d && s[|d| + 1..] == rest
    requires Scan(s) == Parts(|d| + 1, 0, 0)
    ensures ReadNumber(s) == Some((Number(-(Decimals.ValueOf(d) as int)), rest))
  {
  }

  lemma DigitsRead(d: string, rest: string)
    requires Decimals.Canonical(d) && Stops(rest)
    ensures ReadNumber(d + rest) == Some((Number(Decimals.ValueOf(d)), rest))
  {
    DigitsScan(d);
    ScanAppend(d, rest);
    assert (d + rest)[..|d|] == d && (d + rest)[|d|..] == rest;
    PlainNumber(d + rest, d, rest);
  }

  lemma MinusReads(d: string, rest: string)
    requires Decimals.Canonical(d) && Stops(rest)
    ensures ReadNumber((['-'] + d) + rest) == Some((Number(-(Decimals.ValueOf(d) as int)), rest))
  {
    DigitsScan(d);
    ScanAppend(['-'] + d, rest);
    SignSplits(d, rest);
    SignedNumber((['-'] + d) + rest, d, rest);
  }

  lemma SignSplits(d: string, rest: string)
    ensures ((['-'] + d) + rest)[1..|d| + 1] == d && ((['-'] + d) + rest)[|d| + 1..] == rest
  {
  }

  lemma FloatReads(l: Literal, rest: string)
    requires Stops(rest)
    ensures ReadValue(l + rest) == Some((Float(l), rest))
    ensures l[0] == '-' || IsDigit(l[0])
  {
    ScanAppend(l, rest);
    assert (l + rest)[..|l|] == l && (l + rest)[|l|..] == rest;
    FirstOfNumber(l);
    NumberStep(l + rest);
  }

  lemma FirstOfNumber(s: string)
    requires Scan(s).whole > 0
    ensures s != [] && (s[0] == '-' || IsDigit(s[0]))
  {
  }

  /** A sign or a digit leads to the number scanner. */
  lemma NumberStep(s: string)
    requires s != [] && (s[0] == '-' || IsDigit(s[0]))
    ensures ReadValue(s) == ReadNumber(s)
  {
    assert s[0] != '"' && s[0] != '[' && s[0] != '{' && s[0] != 'n' && s[0] != 't' && s[0] != 'f';
  }

  lemma WrittenForm(n: int) returns (d: string)
    ensures Decimals.Canonical(d) && Decimals.ValueOf(d) == if n < 0 then -n else n
    ensures Write(Number(n)) == if n < 0 then ['-'] + d else d
  {
    var m: nat := if n < 0 then -n else n;
    Decimals.DecimalIsCanonical(m);
    d := Decimals.Decimal(m);
  }

  lemma NumberReads(n: int, rest: string)
    requires Stops(rest)
    ensures ReadValue(Write(Number(n)) + rest) == Some((Number(n), rest))
    ensures Write(Number(n))[0] == '-' || IsDigit(Write(Number(n))[0])
  {
    var d := WrittenForm(n);
    if n < 0 {
      MinusReads(d, rest);
      NumberStep(['-'] + d + rest);
    } else {
      DigitsRead(d, rest);
      NumberStep(d + rest);
    }
  }

  lemma WordReads(word: string, rest: string, v: Json)
    requires word != []
    ensures After(word + rest, word, v) == Some((v, rest))
  {
    assert (word + rest)[..|word|] == word && (word + rest)[|word|..] == rest;
  }

  /** A written value starts with none of the characters that are skipped or that close. */
  lemma WriteStarts(v: Json)
    ensures !Blank(Write(v)[0]) && Write(v)[0] != ']' && Write(v)[0] != '}'
  {
    if v.Number? {
      NumberReads(v.n, []);
    } else if v.Float? {
      FloatReads(v.l, []);
    }
  }

  lemma SkipStays(v: Json, rest: string)
    ensures Skip(Write(v) + rest) == Write(v) + rest
  {
    WriteStarts(v);
  }

  lemma TextReads(t: Text, rest: string)
    requires Whole(t)
    ensures (WriteText(t) + rest)[0] == '"'
    ensures ReadChars((WriteText(t) + rest)[1..]) == Some((t, rest))
  {
    CharsRead(t, rest);
    assert (WriteText(t) + rest)[1..] == Closed(t, rest);
  }

  /** Reading what was written for a good value gives the value, and stops after it. */
  lemma {:induction false} ValueReads(v: Json, rest: string)
    requires Good(v) && Stops(rest)
    ensures ReadValue(Write(v) + rest) == Some((v, rest))
    decreases v
  {
    var s := Write(v) + rest;
    match v {
      case Null => WordReads("null", rest, v);
      case Bool(b) => WordReads(if b then "true" else "false", rest, v);
      case Number(n) => NumberReads(n, rest);
      case Float(l) => FloatReads(l, rest);
      case String(t) => TextReads(t, rest);
      case Array(items) => ArrayReads(items, rest);
      case Object(fields) => ObjectReads(fields, rest);
    }
  }

  // One step of the reader, on any text.

  lemma ArrayStep(s: string, inner: string, items: Items, rest: string)
    requires s == ['['] + inner && inner != [] && !Blank(inner[0]) && inner[0] != ']' && ReadItems(inner) == Some((items, rest))
    ensures ReadValue(s) == Some((Array(items), rest))
  {
    assert s[1..] == inner;
  }

  lemma ObjectStep(s: string, inner: string, fs: Fields, rest: string)
    requires s == ['{'] + inner && inner != [] && inner[0] == '"' && ReadFields(inner) == Some((fs, rest)) && Collect(fs) == Some(fs)
    ensures ReadValue(s) == Some((Object(fs), rest))
  {
    assert s[1..] == inner;
  }

  lemma EmptySteps(s: string, rest: string)
    ensures s == ['['] + ([']'] + rest) ==> ReadValue(s) == Some((Array(End), rest))
    ensures s == ['{'] + (['}'] + rest) ==> ReadValue(s) == Some((Object(Close), rest))
  {
    if s == ['['] + ([']'] + rest) {
      assert s[1..] == [']'] + rest && ([']'] + rest)[1..] == rest;
    }
    if s == ['{'] + (['}'] + rest) {
      assert s[1..] == ['}'] + rest && (['}'] + rest)[1..] == rest;
    }
  }

  lemma LastItemStep(s: string, v: Json, rest: string)
    requires ReadValue(s) == Some((v, [']'] + rest))
    ensures ReadItems(s) == Some((Item(v, End), rest))
  {
    assert ([']'] + rest)[1..] == rest;
  }

  lemma MoreItemsStep(s: string, v: Json, more: string, items: Items, rest: string)
    requires ReadValue(s) == Some((v, [','] + more)) && more != [] && !Blank(more[0]) && ReadItems(more) == Some((items, rest))
    ensures ReadItems(s) == Some((Item(v, items), rest))
  {
    assert ([','] + more)[1..] == more;
  }

  /** A key, its colon and its value; `next` is what follows. */
  predicate PairAt(s: string, key: Text, v: Json, next: string) {
    && s != [] && s[0] == '"' && ReadChars(s[1..]).Some? && ReadChars(s[1..]).value.0 == key
    && var colon := ReadChars(s[1..]).value.1;
    && colon != [] && colon[0] == ':' && Skip(colon[1..]) == colon[1..] && ReadValue(colon[1..]) == Some((v, next))
  }

  lemma LastFieldStep(s: string, key: Text, v: Json, rest: string)
    requires PairAt(s, key, v, ['}'] + rest)
    ensures ReadFields(s) == Some((Field(key, v, Close), rest))
  {
    assert (['}'] + rest)[1..] == rest;
  }

  lemma MoreFieldsStep(s: string, key: Text, v: Json, more: string, fs: Fields, rest: string)
    requires PairAt(s, key, v, [','] + more) && more != [] && more[0] == '"' && ReadFields(more) == Some((fs, rest))
    ensures ReadFields(s) == Some((Field(key, v, fs), rest))
  {
    assert ([','] + more)[1..] == more;
  }

  lemma PairReads(key: Text, v: Json, next: string)
    requires Whole(key) && ReadValue(Write(v) + next) == Some((v, next))
    ensures PairAt(WriteText(key) + ([':'] + (Write(v) + next)), key, v, next)
  {
    var colon := [':'] + (Write(v) + next);
    TextReads(key, colon);
    SkipStays(v, next);
    assert colon[1..] == Write(v) + next;
  }

  /** The written items or pairs, their closing bracket, and what follows. */
  function ItemsTail(items: Items, rest: string): string {
    WriteItems(items) + ([']'] + rest)
  }

  function FieldsTail(fs: Fields, rest: string): string {
    WriteFields(fs) + (['}'] + rest)
  }

  lemma ItemsTailSplits(items: Items, rest: string)
    requires items.Item?
    ensures ItemsTail(items, rest)
      == Write(items.head) + (if items.tail.End? then [']'] + rest else [','] + ItemsTail(items.tail, rest))
    ensures !Blank(ItemsTail(items, rest)[0]) && ItemsTail(items, rest)[0] != ']'
  {
    var sep := if items.tail.End? then [] else [','];
    assert WriteItems(items) == Write(items.head) + sep + WriteItems(items.tail);
    Regroup(Write(items.head), sep, WriteItems(items.tail), [']'] + rest);
    assert items.tail.End? ==> sep + (WriteItems(items.tail) + ([']'] + rest)) == [']'] + rest;
    WriteStarts(items.head);
  }

  lemma Regroup(a: string, b: string, c: string, d: string)
    ensures (a + b + c) + d == a + (b + (c + d))
  {
  }

  lemma FieldsTailSplits(fs: Fields, rest: string)
    requires fs.Field?
    ensures FieldsTail(fs, rest)
      == WriteText(fs.key) + ([':'] + (Write(fs.value) + (if fs.rest.Close? then ['}'] + rest else [','] + FieldsTail(fs.rest, rest))))
    ensures FieldsTail(fs, rest)[0] == '"'
  {
    var sep := if fs.rest.Close? then [] else [','];
    var front := WriteText(fs.key) + [':'] + Write(fs.value);
    assert WriteFields(fs) == front + sep + WriteFields(fs.rest);
    Regroup(front, sep, WriteFields(fs.rest), ['}'] + rest);
    var next := if fs.rest.Close? then ['}'] + rest else [','] + FieldsTail(fs.rest, rest);
    assert sep + (WriteFields(fs.rest) + (['}'] + rest)) == next;
    Regroup(WriteText(fs.key), [':'], Write(fs.value), next);
  }

  lemma ArrayText(items: Items, rest: string)
    ensures Write(Array(items)) + rest == ['['] + ItemsTail(items, rest)
    ensures items.End? ==> ItemsTail(items, rest) == [']'] + rest
  {
    Bracketed('[', WriteItems(items), ']', rest);
  }

  lemma Bracketed(open: char, inner: string, close: char, rest: string)
    ensures ([open] + inner + [close]) + rest == [open] + (inner + ([close] + rest))
    ensures inner == [] ==> inner + ([close] + rest) == [close] + rest
  {
  }

  lemma {:induction false} ArrayReads(items: Items, rest: string)
    requires GoodItems(items) && Stops(rest)
    ensures ReadValue(Write(Array(items)) + rest) == Some((Array(items), rest))
    decreases items, 1
  {
    var s := Write(Array(items)) + rest;
    ArrayText(items, rest);
    if items.End? {
      EmptySteps(s, rest);
    } else {
      ItemsRead(items, rest);
      ItemsTailSplits(items, rest);
      ArrayStep(s, ItemsTail(items, rest), items, rest);
    }
  }

  lemma {:induction false} ItemsRead(items: Items, rest: string)
    requires GoodItems(items) && items.Item?
    ensures ReadItems(ItemsTail(items, rest)) == Some((items, rest))
    decreases items, 0
  {
    var s := ItemsTail(items, rest);
    ItemsTailSplits(items, rest);
    if items.tail.End? {
      ValueReads(items.head, [']'] + rest);
      LastItemStep(s, items.head, rest);
    } else {
      var more := ItemsTail(items.tail, rest);
      ValueReads(items.head, [','] + more);
      ItemsRead(items.tail, rest);
      ItemsTailSplits(items.tail, rest);
      MoreItemsStep(s, items.head, more, items.tail, rest);
    }
  }

  lemma {:induction false} CollectAscending(fs: Fields)
    requires Ascending(fs)
    ensures Collect(fs) == Some(fs)
  {
    if fs.Field? {
      CollectAscending(fs.rest);
    }
  }

  lemma ObjectText(fs: Fields, rest: string)
    ensures Write(Object(fs)) + rest == ['{'] + FieldsTail(fs, rest)
    ensures fs.Close? ==> FieldsTail(fs, rest) == ['}'] + rest
  {
    Bracketed('{', WriteFields(fs), '}', rest);
  }

  lemma {:induction false} ObjectReads(fs: Fields, rest: string)
    requires Ascending(fs) && GoodFields(fs) && Stops(rest)
    ensures ReadValue(Write(Object(fs)) + rest) == Some((Object(fs), rest))
    decreases fs, 1
  {
    var s := Write(Object(fs)) + rest;
    ObjectText(fs, rest);
    if fs.Close? {
      EmptySteps(s, rest);
    } else {
      FieldsRead(fs, rest);
      CollectAscending(fs);
      FieldsTailSplits(fs, rest);
      ObjectStep(s, FieldsTail(fs, rest), fs, rest);
    }
  }

  lemma {:induction false} FieldsRead(fs: Fields, rest: string)
    requires GoodFields(fs) && fs.Field?
    ensures ReadFields(FieldsTail(fs, rest)) == Some((fs, rest))
    decreases fs, 0
  {
    var s := FieldsTail(fs, rest);
    FieldsTailSplits(fs, rest);
    if fs.rest.Close? {
      ValueReads(fs.value, ['}'] + rest);
      PairReads(fs.key, fs.value, ['}'] + rest);
      LastFieldStep(s, fs.key, fs.value, rest);
    } else {
      var more := FieldsTail(fs.rest, rest);
      ValueReads(fs.value, [','] + more);
      PairReads(fs.key, fs.value, [','] + more);
      FieldsRead(fs.rest, rest);
      FieldsTailSplits(fs.rest, rest);
      MoreFieldsStep(s, fs.key, fs.value, more, fs.rest, rest);
    }
  }

  /** Decoding what was encoded gives the value back. */
  lemma RoundTrip(v: Json)
    requires Good(v)
    ensures Decode(Bytes(v)) == Some(v)
  {
    ValueReads(v, ['\n']);
    SkipStays(v, ['\n']);
    assert Skip(['\n']) == [];
  }

  // ----- what is read is good -----------------------------------------------

  lemma {:induction false} InsertKeeps(key: Text, value: Json, fs: Fields)
    requires Ascending(fs) && GoodFields(fs) && Whole(key) && Good(value) && Insert(key, value, fs).Some?
    ensures var r := Insert(key, value, fs).value; Ascending(r) && GoodFields(r)
    ensures var r := Insert(key, value, fs).value; r.Field? && (r.key == key || (fs.Field? && r.key == fs.key))
  {
    if fs.Field? && !Before(key, fs.key) {
      BeforeTotal(key, fs.key);
      InsertKeeps(key, value, fs.rest);
    }
  }

  lemma {:induction false} CollectKeeps(fs: Fields)
    requires GoodFields(fs) && Collect(fs).Some?
    ensures Ascending(Collect(fs).value) && GoodFields(Collect(fs).value)
  {
    if fs.Field? {
      CollectKeeps(fs.rest);
      InsertKeeps(fs.key, fs.value, Collect(fs.rest).value);
    }
  }

  lemma {:induction false} ValueIsGood(s: string)
    requires ReadValue(s).Some?
    ensures Good(ReadValue(s).value.0)
    decreases |s|, 0
  {
    if s[0] == '"' {
      ReadIsWhole(s[1..]);
    } else if s[0] == '[' {
      var inner := Skip(s[1..]);
      if !(inner != [] && inner[0] == ']') {
        ItemsAreGood(inner);
      }
    } else if s[0] == '{' {
      var inner := Skip(s[1..]);
      if !(inner != [] && inner[0] == '}') {
        FieldsAreGood(inner);
        CollectKeeps(ReadFields(inner).value.0);
      }
    }
  }

  lemma {:induction false} ItemsAreGood(s: string)
    requires ReadItems(s).Some?
    ensures GoodItems(ReadItems(s).value.0)
    decreases |s|, 1
  {
    ValueIsGood(s);
    var next := Skip(ReadValue(s).value.1);
    if next[0] == ',' {
      ItemsAreGood(Skip(next[1..]));
    }
  }

  lemma {:induction false} FieldsAreGood(s: string)
    requires ReadFields(s).Some?
    ensures GoodFields(ReadFields(s).value.0)
    decreases |s|, 1
  {
    ReadIsWhole(s[1..]);
    var colon := Skip(ReadChars(s[1..]).value.1);
    ValueIsGood(Skip(colon[1..]));
    var next := Skip(ReadValue(Skip(colon[1..])).value.1);
    if next[0] == ',' {
      FieldsAreGood(Skip(next[1..]));
    }
  }

  /** The round trip succeeds exactly for whole strings and dicts in key order:
      a string with a split surrogate pair comes back as a different one. */
  lemma RoundTripIffGood(v: Json)
    ensures Decode(Bytes(v)) == Some(v) <==> Good(v)
  {
    if Good(v) {
      RoundTrip(v);
    }
    if Decode(Bytes(v)) == Some(v) {
      ValueIsGood(Skip(Bytes(v)));
    }
  }

  // ----- the gate -----------------------------------------------------------

  const MAX_REQUEST: nat := 16384

  /** `parse_analytics_request`: `valid` is the check of every field against the reviewed source. */
  predicate Accepts(valid: Json -> bool, raw: string, v: Json) {
    0 < |raw| <= MAX_REQUEST && Decode(raw) == Some(v) && valid(v) && Bytes(v) == raw
  }

  /** Accepted are exactly the canonical forms of valid values. */
  lemma AcceptsExactly(valid: Json -> bool, raw: string, v: Json)
    ensures Accepts(valid, raw, v) <==> Good(v) && valid(v) && raw == Bytes(v) && |raw| <= 16384
  {
    RoundTripIffGood(v);
  }

  /** Two values with one canonical form are one value, hash or not. */
  lemma BytesInjective(v: Json, w: Json)
    requires Good(v) && Good(w) && Bytes(v) == Bytes(w)
    ensures v == w
  {
    RoundTrip(v);
    RoundTrip(w);
  }
}
