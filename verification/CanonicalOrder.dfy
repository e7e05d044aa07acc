/** What the gate of `CanonicalJson` means for the bytes: keys in order, stated on
    the keys alone, and one text in full (`canonical_bytes` in
    `deployment/analytics_execution.py`, `sort_keys=True` in `deployment/policy.py`). */
module CanonicalOrder {
  import opened Wrappers
  import Decimals
  import opened JsonText
  import opened CanonicalJson

  /** The two agree up to `k`, where `a` ends or is smaller. */
  predicate SmallerAt(a: Text, b: Text, k: nat) {
    k <= |a| && k < |b| && a[..k] == b[..k] && (k == |a| || a[k] < b[k])
  }

  /** A proper prefix, or smaller at the first place where they differ. */
  ghost predicate Smaller(a: Text, b: Text) {
    exists k: nat :: SmallerAt(a, b, k)
  }

  lemma {:induction false} BeforeMeans(a: Text, b: Text) returns (k: nat)
    requires Before(a, b)
    ensures SmallerAt(a, b, k)
  {
    k := 0;
    if a != [] && a[0] == b[0] {
      k := BeforeMeans(a[1..], b[1..]);
      k := k + 1;
      assert a[..k] == [a[0]] + a[1..][..k - 1] && b[..k] == [b[0]] + b[1..][..k - 1];
    }
  }

  lemma {:induction false} SmallerIsBefore(a: Text, b: Text, k: nat)
    requires SmallerAt(a, b, k)
    ensures Before(a, b)
  {
    if k > 0 {
      assert a[0] == a[..k][0] == b[..k][0] == b[0];
      assert a[1..][..k - 1] == a[..k][1..] && b[1..][..k - 1] == b[..k][1..];
      SmallerIsBefore(a[1..], b[1..], k - 1);
    }
  }

  lemma BeforeIff(a: Text, b: Text)
    ensures Before(a, b) <==> Smaller(a, b)
  {
    if Before(a, b) {
      var k := BeforeMeans(a, b);
    }
    if Smaller(a, b) {
      var k: nat :| SmallerAt(a, b, k);
      SmallerIsBefore(a, b, k);
    }
  }

  /** The keys as they are written. */
  function Keys(fs: Fields): seq<Text> {
    if fs.Close? then [] else [fs.key] + Keys(fs.rest)
  }

  ghost predicate KeysInOrder(fs: Fields) {
    forall i | 0 < i < |Keys(fs)| :: Smaller(Keys(fs)[i - 1], Keys(fs)[i])
  }

  lemma {:induction false} AscendingIff(fs: Fields)
    ensures Ascending(fs) <==> KeysInOrder(fs)
  {
    if fs.Field? && fs.rest.Field? {
      var keys, more := Keys(fs), Keys(fs.rest);
      AscendingIff(fs.rest);
      BeforeIff(fs.key, fs.rest.key);
      assert keys[0] == fs.key && keys[1] == more[0] == fs.rest.key;
      assert forall i | 0 <= i < |more| :: keys[i + 1] == more[i];
      if KeysInOrder(fs) {
        assert Smaller(keys[1 - 1], keys[1]);
        assert Smaller(fs.key, fs.rest.key);
        forall i | 0 < i < |more| ensures Smaller(more[i - 1], more[i]) {
          assert Smaller(keys[i + 1 - 1], keys[i + 1]);
        }
      }
      if Ascending(fs) {
        forall i | 0 < i < |keys| ensures Smaller(keys[i - 1], keys[i]) {
          if i > 1 {
            assert Smaller(more[i - 1 - 1], more[i - 1]);
          }
        }
      }
    } else if fs.Field? {
      assert Keys(fs) == [fs.key];
    }
  }

  // ----- accepted bytes --------------------------------------------------------

  /** A value inside a value, at any depth. */
  predicate Inside(x: Json, v: Json) {
    x == v || match v
      case Array(items) => InItems(x, items)
      case Object(fields) => InFields(x, fields)
      case _ => false
  }

  predicate InItems(x: Json, items: Items) {
    items.Item? && (Inside(x, items.head) || InItems(x, items.tail))
  }

  predicate InFields(x: Json, fs: Fields) {
    fs.Field? && (Inside(x, fs.value) || InFields(x, fs.rest))
  }

  lemma {:induction false} GoodInside(x: Json, v: Json)
    requires Good(v) && Inside(x, v)
    ensures Good(x)
    decreases v
  {
    if x != v {
      match v {
        case Array(items) => GoodInItems(x, items);
        case Object(fields) => GoodInFields(x, fields);
      }
    }
  }

  lemma {:induction false} GoodInItems(x: Json, items: Items)
    requires GoodItems(items) && InItems(x, items)
    ensures Good(x)
    decreases items
  {
    if Inside(x, items.head) {
      GoodInside(x, items.head);
    } else {
      GoodInItems(x, items.tail);
    }
  }

  lemma {:induction false} GoodInFields(x: Json, fs: Fields)
    requires GoodFields(fs) && InFields(x, fs)
    ensures Good(x)
    decreases fs
  {
    if Inside(x, fs.value) {
      GoodInside(x, fs.value);
    } else {
      GoodInFields(x, fs.rest);
    }
  }

  /** Every object of an accepted value, at any depth, has its keys in order. */
  lemma AcceptedInOrder(valid: Json -> bool, raw: string, v: Json, fs: Fields)
    requires Accepts(valid, raw, v) && Inside(Object(fs), v)
    ensures KeysInOrder(fs)
  {
    AcceptsExactly(valid, raw, v);
    GoodInside(Object(fs), v);
    AscendingIff(fs);
  }

  lemma OnlyObjectsOpen(v: Json, w: Json)
    requires Good(v) && v.Object? && w.Object? == false
    ensures Write(w)[0] != Write(v)[0]
  {
    if w.Number? {
      NumberReads(w.n, []);
    } else if w.Float? {
      FloatReads(w.l, []);
    }
  }

  /** Written pairs determine the pairs, in order or not. */
  lemma PairsInjective(fs: Fields, gs: Fields)
    requires GoodFields(fs) && GoodFields(gs) && Write(Object(fs)) == Write(Object(gs))
    ensures fs == gs
  {
    ObjectText(fs, []);
    ObjectText(gs, []);
    var a, b := FieldsTail(fs, []), FieldsTail(gs, []);
    assert (['{'] + a)[1..] == a && (['{'] + b)[1..] == b;
    if fs.Field? {
      FieldsTailSplits(fs, []);
      FieldsRead(fs, []);
    }
    if gs.Field? {
      FieldsTailSplits(gs, []);
      FieldsRead(gs, []);
    }
  }

  /** An object written with its keys in any other order is refused, as whatever value. */
  lemma UnsortedIsRefused(valid: Json -> bool, fs: Fields, w: Json)
    requires GoodFields(fs) && !KeysInOrder(fs)
    ensures !Accepts(valid, Bytes(Object(fs)), w)
  {
    AscendingIff(fs);
    if Accepts(valid, Bytes(Object(fs)), w) {
      AcceptsExactly(valid, Bytes(Object(fs)), w);
      assert Bytes(w)[..|Bytes(w)| - 1] == Write(w) && Bytes(Object(fs))[..|Bytes(w)| - 1] == Write(Object(fs));
      if w.Object? {
        PairsInjective(fs, w.fields);
      } else {
        OnlyObjectsOpen(Object(Close), w);
      }
    }
  }

  // ----- one text in full ------------------------------------------------------

  const THIRD: Fields := Field([99], String([10, 233]), Close)
  const SECOND: Fields := Field([98], Number(-10), THIRD)
  const WORDS: Items := Item(Null, Item(Bool(true), Item(Bool(false), End)))

  /** {"a": [None, True, False], "b": -10, "c": "\n\u00e9"} */
  const SPECIMEN: Json := Object(Field([97], Array(WORDS), SECOND))

  lemma SpecimenWords()
    ensures Write(Array(WORDS)) == "[null,true,false]"
  {
    var two := Item(Bool(true), Item(Bool(false), End));
    assert WriteItems(Item(Bool(false), End)) == "false" + [] + [];
    assert WriteItems(two) == "true" + [','] + "false";
    assert WriteItems(WORDS) == "null" + [','] + WriteItems(two);
  }

  lemma Letter(c: Code)
    requires 'a' as nat <= c <= 'z' as nat
    ensures WriteText([c]) == ['"', c as char, '"']
  {
    assert WriteChars([c]) == WriteChar(c) + WriteChars([c][1..]) == [c as char];
  }

  lemma SpecimenText()
    ensures WriteText([10, 233]) == "\"" + "\\n\\u00e9" + "\""
  {
    var t: Text := [10, 233];
    assert t[1..] == [233] && t[1..][1..] == [];
    CharIs(233);
    assert WriteChar(233) == "\\u00e9";
    assert WriteChars([233]) == WriteChar(233) + [] == "\\u00e9";
    assert WriteChars(t) == "\\n" + WriteChars([233]);
  }

  lemma MinusTen()
    ensures Write(Number(-10)) == "-10"
  {
    assert Decimals.Decimal(1) == "1";
    assert Decimals.Decimal(10) == Decimals.Decimal(1) + "0";
  }

  lemma SpecimenThird()
    ensures WriteFields(THIRD) == "\"c\":" + ("\"" + "\\n\\u00e9" + "\"")
  {
    SpecimenText();
    Letter(99);
    assert WriteFields(THIRD) == WriteText([99]) + [':'] + WriteText([10, 233]) + [] + [];
  }

  lemma SpecimenSecond()
    ensures WriteFields(SECOND) == "\"b\":-10," + WriteFields(THIRD)
  {
    MinusTen();
    Letter(98);
    assert WriteFields(SECOND) == WriteText([98]) + [':'] + Write(Number(-10)) + [','] + WriteFields(THIRD);
  }

  lemma SpecimenIsGood()
    ensures Good(SPECIMEN)
  {
    assert Before([97], [98]) && Before([98], [99]);
    assert Ascending(THIRD) && Ascending(SECOND);
    assert Good(Array(WORDS));
    assert GoodFields(THIRD) && GoodFields(SECOND);
  }

  lemma Assembled(tail: string)
    ensures ['{'] + ("\"a\"" + [':'] + "[null,true,false]" + [','] + tail) + ['}'] == "{\"a\":[null,true,false]," + tail + "}"
  {
    assert "\"a\"" + [':'] + "[null,true,false]" + [','] == "\"a\":[null,true,false],";
    assert ['{'] + "\"a\":[null,true,false]," == "{\"a\":[null,true,false],";
  }

  lemma SpecimenFirst()
    ensures Write(SPECIMEN) == "{\"a\":[null,true,false]," + WriteFields(SECOND) + "}"
  {
    SpecimenWords();
    Letter(97);
    assert WriteText([97]) == "\"a\"";
    Assembled(WriteFields(SECOND));
  }

  /** The canonical form of one value with every kind of text in it, and its reading. */
  lemma Specimen()
    ensures Bytes(SPECIMEN) ==
      "{\"a\":[null,true,false]," + ("\"b\":-10," + ("\"c\":" + ("\"" + "\\n\\u00e9" + "\""))) + "}" + "\n"
    ensures Decode(Bytes(SPECIMEN)) == Some(SPECIMEN)
  {
    SpecimenFirst();
    SpecimenSecond();
    SpecimenThird();
    SpecimenIsGood();
    RoundTripIffGood(SPECIMEN);
  }
}
