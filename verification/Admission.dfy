/** What `Ingress` lets in, stated on the input alone: the six headers by name, and
    a document as the list of all its values (`parse_dev_promotion_ingress` in
    `deployment/broker_https_ingress.py`, `_walk_json` in `deployment/jwks.py`). */
module Admission {
  import opened CanonicalJson
  import opened CanonicalOrder
  import opened Decimals
  import opened Wrappers
  import Ingress

  // ----- the request ----------------------------------------------------------

  const CAPITALS: string := "ABCDEFGHIJKLMNOPQRSTUVWXYZ"
  const SMALL: string := "abcdefghijklmnopqrstuvwxyz"

  /** Capitals become small letters, everything else stays. */
  lemma LowerIs(name: string, i: nat)
    requires i < |name|
    ensures |Ingress.Lower(name)| == |name|
    ensures forall k | 0 <= k < 26 :: name[i] == CAPITALS[k] ==> Ingress.Lower(name)[i] == SMALL[k]
    ensures name[i] !in CAPITALS ==> Ingress.Lower(name)[i] == name[i]
  {
    forall k | 0 <= k < 26 ensures CAPITALS[k] == (65 + k) as char && SMALL[k] == (97 + k) as char {
    }
    if 'A' <= name[i] <= 'Z' {
      assert CAPITALS[name[i] as nat - 65] == name[i];
    }
  }

  /** A header of this name, in any letter case, has this value. */
  predicate Named(headers: seq<Ingress.Header>, name: string, value: string) {
    exists i | 0 <= i < |headers| :: Ingress.Lower(headers[i].0) == name && headers[i].1 == value
  }

  /** ASCII without NUL, line ends and DEL. */
  predicate Readable(value: string) {
    |value| <= 16391 && forall i | 0 <= i < |value| :: 1 <= value[i] as nat <= 126 && value[i] as nat != 10 && value[i] as nat != 13
  }

  /** Printable ASCII without blank and comma. */
  predicate Credential(value: string) {
    1 <= |value| <= 16384 && forall i | 0 <= i < |value| :: 33 <= value[i] as nat <= 126 && value[i] as nat != 44
  }

  /** Everything the parser asks of a request, and what it takes from it. */
  predicate Taken(verb: string, path: string, headers: seq<Ingress.Header>, body: Ingress.Bytes, at: int, r: Ingress.Request) {
    && verb == "POST" && path == "/task014/dev/promote" && 1 <= |body| <= 4096 && at >= 0
    && |headers| == 6 && (forall i | 0 <= i < |headers| :: Readable(headers[i].1))
    && Named(headers, "host", "deploy-dev.omnilyzer.ai")
    && Named(headers, "content-type", "application/json")
    && Named(headers, "content-length", Decimal(|body|))
    && Named(headers, "authorization", "Bearer " + r.compact) && Credential(r.compact)
    && Named(headers, "x-omnilyzer-zot-oidc", r.zot) && Credential(r.zot)
    && Named(headers, "x-omnilyzer-forgejo-oidc", r.forgejo) && Credential(r.forgejo)
    && r.promotion == body && r.receivedAt == at
  }

  function NameOf(k: Ingress.Key): string {
    match k
    case Host => "host"
    case Authorization => "authorization"
    case ZotToken => "x-omnilyzer-zot-oidc"
    case ForgejoToken => "x-omnilyzer-forgejo-oidc"
    case ContentType => "content-type"
    case ContentLength => "content-length"
  }

  lemma KeyIsName(name: string, k: Ingress.Key)
    ensures Ingress.KeyOf(name) == Some(k) <==> Ingress.Lower(name) == NameOf(k)
  {
  }

  lemma CarriesIff(headers: seq<Ingress.Header>, k: Ingress.Key, value: string)
    ensures Ingress.Carries(headers, k, value) <==> Named(headers, NameOf(k), value)
  {
    if Ingress.Carries(headers, k, value) {
      var h :| h in headers && Ingress.KeyOf(h.0) == Some(k) && h.1 == value;
      var i :| 0 <= i < |headers| && headers[i] == h;
      KeyIsName(h.0, k);
    }
    if Named(headers, NameOf(k), value) {
      var i :| 0 <= i < |headers| && Ingress.Lower(headers[i].0) == NameOf(k) && headers[i].1 == value;
      KeyIsName(headers[i].0, k);
      assert headers[i] in headers;
    }
  }

  lemma CleanIff(value: string)
    ensures Ingress.Clean(value) <==> Readable(value)
    ensures Ingress.Token(value) <==> Credential(value)
  {
    assert forall i | 0 <= i < |value| :: value[i] in value;
    assert forall c <- value :: exists i :: 0 <= i < |value| && value[i] == c;
  }

  lemma CarriedIsPresent(headers: seq<Ingress.Header>, k: Ingress.Key, value: string)
    requires Ingress.Carries(headers, k, value)
    ensures Ingress.Present(headers, k)
  {
  }

  lemma AllClean(headers: seq<Ingress.Header>)
    ensures (forall h <- headers :: Ingress.Clean(h.1)) <==> forall i | 0 <= i < |headers| :: Readable(headers[i].1)
  {
    forall i | 0 <= i < |headers| ensures Ingress.Clean(headers[i].1) <==> Readable(headers[i].1) {
      CleanIff(headers[i].1);
    }
    if forall h <- headers :: Ingress.Clean(h.1) {
      forall i | 0 <= i < |headers| ensures Readable(headers[i].1) {
        assert headers[i] in headers;
      }
    }
  }

  /** A request is accepted exactly if it is taken. */
  lemma AcceptedIff(verb: string, path: string, headers: seq<Ingress.Header>, body: Ingress.Bytes, at: int, r: Ingress.Request)
    ensures Ingress.Accepted(verb, path, headers, body, at, r) <==> Taken(verb, path, headers, body, at, r)
  {
    CarriesIff(headers, Ingress.Host, "deploy-dev.omnilyzer.ai");
    CarriesIff(headers, Ingress.ContentType, "application/json");
    CarriesIff(headers, Ingress.ContentLength, Decimal(|body|));
    CarriesIff(headers, Ingress.Authorization, "Bearer " + r.compact);
    CarriesIff(headers, Ingress.ZotToken, r.zot);
    CarriesIff(headers, Ingress.ForgejoToken, r.forgejo);
    CleanIff(r.compact);
    CleanIff(r.zot);
    CleanIff(r.forgejo);
    AllClean(headers);
    if Taken(verb, path, headers, body, at, r) {
      AllPresent(headers, body, r);
    }
  }

  lemma AllPresent(headers: seq<Ingress.Header>, body: Ingress.Bytes, r: Ingress.Request)
    requires forall k: Ingress.Key :: Named(headers, NameOf(k), ValueOf(k, body, r))
    ensures forall k: Ingress.Key :: Ingress.Present(headers, k)
  {
    forall k: Ingress.Key ensures Ingress.Present(headers, k) {
      CarriesIff(headers, k, ValueOf(k, body, r));
      CarriedIsPresent(headers, k, ValueOf(k, body, r));
    }
  }

  /** The value each header must have. */
  function ValueOf(k: Ingress.Key, body: Ingress.Bytes, r: Ingress.Request): string {
    match k
    case Host => "deploy-dev.omnilyzer.ai"
    case Authorization => "Bearer " + r.compact
    case ZotToken => r.zot
    case ForgejoToken => r.forgejo
    case ContentType => "application/json"
    case ContentLength => Decimal(|body|)
  }

  // ----- the document ---------------------------------------------------------

  /** A value and how many levels it lies below the root. */
  datatype Placed = Placed(v: Json, depth: nat)

  /** All values of a document, itself first. */
  function Everything(v: Json, depth: nat): seq<Placed>
    decreases v
  {
    [Placed(v, depth)] +
    match v
    case Array(items) => InAll(items, depth + 1)
    case Object(fields) => InEach(fields, depth + 1)
    case _ => []
  }

  function InAll(items: Items, depth: nat): seq<Placed>
    decreases items
  {
    if items.End? then [] else Everything(items.head, depth) + InAll(items.tail, depth)
  }

  function InEach(fs: Fields, depth: nat): seq<Placed>
    decreases fs
  {
    if fs.Close? then [] else Everything(fs.value, depth) + InEach(fs.rest, depth)
  }

  function Listed(items: Items): seq<Json> {
    if items.End? then [] else [items.head] + Listed(items.tail)
  }

  /** At most four levels down, strings and keys of at most 2048 characters, arrays of at most four items. */
  predicate Modest(p: Placed) {
    && p.depth <= 4
    && (p.v.String? ==> |p.v.t| <= 2048)
    && (p.v.Array? ==> |Listed(p.v.items)| <= 4)
    && (p.v.Object? ==> forall key <- Keys(p.v.fields) :: |key| <= 2048)
  }

  predicate AllModest(ps: seq<Placed>) {
    forall p <- ps :: Modest(p)
  }

  predicate AllAsWritten(canon: string -> string, ps: seq<Placed>) {
    forall p <- ps | p.v.Float? :: canon(p.v.l) == p.v.l
  }

  lemma ModestParts(a: seq<Placed>, b: seq<Placed>, canon: string -> string)
    ensures AllModest(a + b) <==> AllModest(a) && AllModest(b)
    ensures AllAsWritten(canon, a + b) <==> AllAsWritten(canon, a) && AllAsWritten(canon, b)
  {
    assert forall p :: p in a + b <==> p in a || p in b;
  }

  lemma {:induction false} CountIs(items: Items)
    ensures Ingress.Count(items) == |Listed(items)|
  {
    if items.Item? {
      CountIs(items.tail);
    }
  }

  lemma {:induction false} MembersAre(fs: Fields)
    ensures Ingress.Members(fs) == |Keys(fs)|
  {
    if fs.Field? {
      MembersAre(fs.rest);
    }
  }

  /** The three recursions of the router, on the list of all values. */
  lemma {:induction false} WalkIs(canon: string -> string, v: Json, depth: nat)
    ensures Ingress.Bounded(v, depth) <==> AllModest(Everything(v, depth))
    ensures Ingress.Nodes(v) == |Everything(v, depth)|
    ensures Ingress.FloatsCanonical(canon, v) <==> AllAsWritten(canon, Everything(v, depth))
    decreases v
  {
    match v {
      case Array(items) => ArrayWalk(canon, items, depth);
      case Object(fields) => ObjectWalk(canon, fields, depth);
      case _ => LeafWalk(canon, v, depth);
    }
  }

  lemma LeafWalk(canon: string -> string, v: Json, depth: nat)
    requires !v.Array? && !v.Object?
    ensures Ingress.Bounded(v, depth) <==> AllModest(Everything(v, depth))
    ensures Ingress.Nodes(v) == |Everything(v, depth)|
    ensures Ingress.FloatsCanonical(canon, v) <==> AllAsWritten(canon, Everything(v, depth))
  {
    assert Everything(v, depth) == [Placed(v, depth)] + [];
    OwnFirst(canon, v, depth, []);
  }

  lemma {:induction false} ArrayWalk(canon: string -> string, items: Items, depth: nat)
    ensures Ingress.Bounded(Array(items), depth) <==> AllModest(Everything(Array(items), depth))
    ensures Ingress.Nodes(Array(items)) == |Everything(Array(items), depth)|
    ensures Ingress.FloatsCanonical(canon, Array(items)) <==> AllAsWritten(canon, Everything(Array(items), depth))
    decreases items, 1
  {
    CountIs(items);
    ItemsWalk(canon, items, depth + 1);
    OwnFirst(canon, Array(items), depth, InAll(items, depth + 1));
  }

  lemma {:induction false} ObjectWalk(canon: string -> string, fs: Fields, depth: nat)
    ensures Ingress.Bounded(Object(fs), depth) <==> AllModest(Everything(Object(fs), depth))
    ensures Ingress.Nodes(Object(fs)) == |Everything(Object(fs), depth)|
    ensures Ingress.FloatsCanonical(canon, Object(fs)) <==> AllAsWritten(canon, Everything(Object(fs), depth))
    decreases fs, 1
  {
    FieldsWalk(canon, fs, depth + 1);
    OwnFirst(canon, Object(fs), depth, InEach(fs, depth + 1));
  }

  lemma OwnFirst(canon: string -> string, v: Json, depth: nat, below: seq<Placed>)
    requires Everything(v, depth) == [Placed(v, depth)] + below
    ensures AllModest(Everything(v, depth)) <==> Modest(Placed(v, depth)) && AllModest(below)
    ensures AllAsWritten(canon, Everything(v, depth)) <==> (v.Float? ==> canon(v.l) == v.l) && AllAsWritten(canon, below)
  {
    var own := [Placed(v, depth)];
    assert own[0] in own;
    ModestParts(own, below, canon);
  }

  lemma {:induction false} ItemsWalk(canon: string -> string, items: Items, depth: nat)
    ensures Ingress.ItemsBounded(items, depth) <==> AllModest(InAll(items, depth))
    ensures Ingress.ItemNodes(items) == |InAll(items, depth)|
    ensures Ingress.ItemFloats(canon, items) <==> AllAsWritten(canon, InAll(items, depth))
    decreases items, 0
  {
    if items.Item? {
      WalkIs(canon, items.head, depth);
      ItemsWalk(canon, items.tail, depth);
      ModestParts(Everything(items.head, depth), InAll(items.tail, depth), canon);
    }
  }

  lemma {:induction false} FieldsWalk(canon: string -> string, fs: Fields, depth: nat)
    ensures Ingress.FieldsBounded(fs, depth) <==> AllModest(InEach(fs, depth)) && forall key <- Keys(fs) :: |key| <= 2048
    ensures Ingress.FieldNodes(fs) == |InEach(fs, depth)|
    ensures Ingress.FieldFloats(canon, fs) <==> AllAsWritten(canon, InEach(fs, depth))
    decreases fs, 0
  {
    if fs.Field? {
      WalkIs(canon, fs.value, depth);
      FieldsWalk(canon, fs.rest, depth);
      ModestParts(Everything(fs.value, depth), InEach(fs.rest, depth), canon);
      assert forall key :: key in Keys(fs) <==> key == fs.key || key in Keys(fs.rest);
    }
  }

  /** Admissible is an object of at most forty members and a hundred values, each
      within its bounds, and every float written as it was read. */
  lemma AdmissibleIff(canon: string -> string, v: Json)
    ensures Ingress.Admissible(canon, v) <==>
      && v.Object? && |Keys(v.fields)| <= 40 && |Everything(v, 0)| <= 100
      && AllModest(Everything(v, 0)) && AllAsWritten(canon, Everything(v, 0))
  {
    WalkIs(canon, v, 0);
    if v.Object? {
      MembersAre(v.fields);
    }
  }
}
