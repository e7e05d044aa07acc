/** The closed HTTPS ingress and the product router behind it
    (`deployment/broker_https_ingress.py`, `deployment/analytics_broker_router.py`). */
module Ingress {
  import opened CanonicalJson
  import opened Decimals
  import opened JsonText
  import opened Wrappers

  type Bytes = seq<nat>
  type Header = (string, string)

  const MAX_TOKEN: nat := 16384
  const MAX_REQUEST: nat := 4096
  const MAX_REPLY: nat := 65536
  const PUBLIC_HOST := "deploy-dev.omnilyzer.ai"
  const PROMOTION_PATH := "/task014/dev/promote"
  const BEARER := "Bearer "

  /** The six required headers. */
  datatype Key = Host | Authorization | ZotToken | ForgejoToken | ContentType | ContentLength

  const REQUIRED: nat := 6

  function Lower(name: string): string {
    seq(|name|, i requires 0 <= i < |name| =>
      if 'A' <= name[i] <= 'Z' then (name[i] as nat + 32) as char else name[i])
  }

  function KeyOf(name: string): Option<Key> {
    var lowered := Lower(name);
    if lowered == "host" then Some(Host)
    else if lowered == "authorization" then Some(Authorization)
    else if lowered == "x-omnilyzer-zot-oidc" then Some(ZotToken)
    else if lowered == "x-omnilyzer-forgejo-oidc" then Some(ForgejoToken)
    else if lowered == "content-type" then Some(ContentType)
    else if lowered == "content-length" then Some(ContentLength)
    else None
  }

  /** A value of a readable length without line ends, NUL, DEL or anything beyond ASCII. */
  predicate Clean(value: string) {
    && |value| <= MAX_TOKEN + |BEARER|
    && forall c <- value :: c < 127 as char && c != '\r' && c != '\n' && c != '\0'
  }

  predicate Token(value: string) {
    1 <= |value| <= MAX_TOKEN && forall c <- value :: ' ' < c < 127 as char && c != ','
  }

  datatype Request = Request(compact: string, zot: string, forgejo: string, promotion: Bytes, receivedAt: int)

  // ----- what is accepted ---------------------------------------------------

  /** Some header named `k`, in any letter case, has this value. */
  predicate Carries(headers: seq<Header>, k: Key, value: string) {
    exists h <- headers :: KeyOf(h.0) == Some(k) && h.1 == value
  }

  predicate Present(headers: seq<Header>, k: Key) {
    exists h <- headers :: KeyOf(h.0) == Some(k)
  }

  /** The headers are the required six, each once, whatever their order. */
  predicate Framed(headers: seq<Header>) {
    |headers| == REQUIRED && (forall k: Key :: Present(headers, k)) && forall h <- headers :: Clean(h.1)
  }

  /** The request and exactly what is taken from it. */
  predicate Accepted(verb: string, path: string, headers: seq<Header>, body: Bytes, receivedAt: int, r: Request) {
    && verb == "POST" && path == PROMOTION_PATH && 1 <= |body| <= MAX_REQUEST && receivedAt >= 0
    && Framed(headers)
    && Carries(headers, Host, PUBLIC_HOST) && Carries(headers, ContentType, "application/json")
    && Carries(headers, ContentLength, Decimal(|body|))
    && Carries(headers, Authorization, BEARER + r.compact) && Token(r.compact)
    && Carries(headers, ZotToken, r.zot) && Token(r.zot)
    && Carries(headers, ForgejoToken, r.forgejo) && Token(r.forgejo)
    && r.promotion == body && r.receivedAt == receivedAt
  }

  // ----- counting -----------------------------------------------------------

  function KeysOf(headers: seq<Header>): set<Key> {
    set h | h in headers && KeyOf(h.0).Some? :: KeyOf(h.0).value
  }

  lemma {:induction false} FewKeys(headers: seq<Header>)
    ensures |KeysOf(headers)| <= |headers|
  {
    if headers != [] {
      var first, rest := headers[0], headers[1..];
      FewKeys(rest);
      var own: set<Key> := if KeyOf(first.0).Some? then {KeyOf(first.0).value} else {};
      assert headers == [first] + rest;
      assert KeysOf(headers) == KeysOf(rest) + own;
      assert |KeysOf(rest) + own| <= |KeysOf(rest)| + |own|;
    }
  }

  /** No key twice. */
  predicate Distinct(headers: seq<Header>) {
    forall i, j | 0 <= i < j < |headers| && KeyOf(headers[i].0).Some? :: KeyOf(headers[i].0) != KeyOf(headers[j].0)
  }

  lemma SubsetSmaller<T>(a: set<T>, b: set<T>)
    requires a <= b
    ensures |a| <= |b| && (|a| == |b| ==> a == b)
  {
    assert b == a + (b - a);
    if |a| == |b| {
      assert |b - a| == 0;
    }
  }

  lemma AllKeys() returns (all: set<Key>)
    ensures |all| == REQUIRED && forall k: Key :: k in all
  {
    all := {Host, Authorization, ZotToken, ForgejoToken, ContentType, ContentLength};
    forall k: Key ensures k in all {
      match k {
        case Host => case Authorization => case ZotToken => case ForgejoToken => case ContentType => case ContentLength =>
      }
    }
  }

  /** With as many headers as keys, every key being there leaves no room for a second one. */
  lemma FullMeansDistinct(headers: seq<Header>)
    requires |headers| == REQUIRED && forall k: Key :: Present(headers, k)
    ensures Distinct(headers) && forall h <- headers :: KeyOf(h.0).Some?
  {
    var all := AllKeys();
    forall k <- all ensures k in KeysOf(headers) {
      assert Present(headers, k);
    }
    forall i | 0 <= i < |headers|
      ensures KeyOf(headers[i].0).Some?
      ensures forall j | 0 <= j < |headers| && j != i :: KeyOf(headers[j].0) != KeyOf(headers[i].0)
    {
      var others := headers[..i] + headers[i + 1..];
      FewKeys(others);
      SubsetSmaller(all, KeysOf(headers));
      if KeyOf(headers[i].0).None? || exists j | 0 <= j < |headers| && j != i :: KeyOf(headers[j].0) == KeyOf(headers[i].0) {
        forall k | k in KeysOf(headers) ensures k in KeysOf(others) {
          var h :| h in headers && KeyOf(h.0) == Some(k);
          var m :| 0 <= m < |headers| && headers[m] == h;
        }
        SubsetSmaller(KeysOf(headers), KeysOf(others));
      }
    }
  }

  lemma {:induction false} DistinctCounts(headers: seq<Header>)
    requires Distinct(headers) && forall h <- headers :: KeyOf(h.0).Some?
    ensures |KeysOf(headers)| == |headers|
  {
    if headers != [] {
      DistinctTail(headers);
      DistinctCounts(headers[1..]);
      assert headers == [headers[0]] + headers[1..];
      assert KeysOf(headers) == KeysOf(headers[1..]) + {KeyOf(headers[0].0).value};
    }
  }

  lemma DistinctTail(headers: seq<Header>)
    requires headers != [] && Distinct(headers) && forall h <- headers :: KeyOf(h.0).Some?
    ensures Distinct(headers[1..]) && (forall h <- headers[1..] :: KeyOf(h.0).Some?)
    ensures KeyOf(headers[0].0).value !in KeysOf(headers[1..])
  {
    var rest := headers[1..];
    assert forall i | 0 <= i < |rest| :: rest[i] == headers[i + 1];
    forall h | h in rest ensures KeyOf(h.0).Some? && KeyOf(h.0) != KeyOf(headers[0].0) {
      var i :| 0 <= i < |rest| && rest[i] == h;
      assert headers[i + 1] == h;
    }
  }

  /** The closing key-set test of the parser can never fail: as many different
      known names as required names are the required names. */
  lemma DistinctMeansFull(headers: seq<Header>)
    requires |headers| == REQUIRED && Distinct(headers) && forall h <- headers :: KeyOf(h.0).Some?
    ensures forall k: Key :: Present(headers, k)
  {
    DistinctCounts(headers);
    var all := AllKeys();
    SubsetSmaller(KeysOf(headers), all);
    forall k: Key ensures Present(headers, k) {
      assert k in KeysOf(headers);
    }
  }

  /** In accepted headers a key has one value. */
  lemma CarriesOnce(headers: seq<Header>, k: Key, v: string, w: string)
    requires Framed(headers) && Carries(headers, k, v) && Carries(headers, k, w)
    ensures v == w
  {
    FullMeansDistinct(headers);
    var g :| g in headers && KeyOf(g.0) == Some(k) && g.1 == v;
    var h :| h in headers && KeyOf(h.0) == Some(k) && h.1 == w;
    var i :| 0 <= i < |headers| && headers[i] == g;
    var j :| 0 <= j < |headers| && headers[j] == h;
  }

  /** At most one request can be taken from given input. */
  lemma AcceptedOnce(verb: string, path: string, headers: seq<Header>, body: Bytes, at: int, r: Request, r': Request)
    requires Accepted(verb, path, headers, body, at, r) && Accepted(verb, path, headers, body, at, r')
    ensures r == r'
  {
    CarriesOnce(headers, Authorization, BEARER + r.compact, BEARER + r'.compact);
    assert (BEARER + r.compact)[|BEARER|..] == r.compact && (BEARER + r'.compact)[|BEARER|..] == r'.compact;
    CarriesOnce(headers, ZotToken, r.zot, r'.zot);
    CarriesOnce(headers, ForgejoToken, r.forgejo, r'.forgejo);
  }

  /** The order of the headers does not matter. */
  lemma OrderDoesNotMatter(verb: string, path: string, headers: seq<Header>, shuffled: seq<Header>, body: Bytes, at: int, r: Request)
    requires multiset(headers) == multiset(shuffled)
    ensures Accepted(verb, path, headers, body, at, r) <==> Accepted(verb, path, shuffled, body, at, r)
  {
    assert |headers| == |multiset(headers)| == |multiset(shuffled)| == |shuffled|;
    forall h ensures h in headers <==> h in shuffled {
      assert h in headers <==> h in multiset(headers);
      assert h in shuffled <==> h in multiset(shuffled);
    }
    forall k, v ensures Carries(headers, k, v) <==> Carries(shuffled, k, v) {
    }
    forall k ensures Present(headers, k) <==> Present(shuffled, k) {
    }
  }

  // ----- the parser ---------------------------------------------------------

  /** The header dictionary of the parser. */
  predicate Collected(headers: seq<Header>, n: nat, values: map<Key, string>) {
    && n <= |headers|
    && (forall i | 0 <= i < n :: HeaderIn(headers[i], values))
    && (forall k <- values :: Carries(headers[..n], k, values[k]))
    && Distinct(headers[..n])
  }

  predicate HeaderIn(h: Header, values: map<Key, string>) {
    Clean(h.1) && KeyOf(h.0).Some? && KeyOf(h.0).value in values && values[KeyOf(h.0).value] == h.1
  }

  method CollectHeaders(headers: seq<Header>) returns (values: Option<map<Key, string>>)
    requires |headers| == REQUIRED
    ensures values.Some? <==> Framed(headers)
    ensures values.Some? ==> Collected(headers, |headers|, values.value) && (forall k: Key :: k in values.value)
  {
    var got: map<Key, string> := map[];
    var n := 0;
    while n < |headers|
      invariant 0 <= n <= |headers| && Collected(headers, n, got)
    {
      var h := headers[n];
      var k := KeyOf(h.0);
      if !Clean(h.1) || k.None? || k.value in got {
        RefusedHeader(headers, n, got);
        return None;
      }
      CollectedGrows(headers, n, got);
      got := got[k.value := h.1];
      n := n + 1;
    }
    CollectedIsFramed(headers, got);
    return Some(got);
  }

  lemma RefusedHeader(headers: seq<Header>, n: nat, got: map<Key, string>)
    requires n < |headers| == REQUIRED && Collected(headers, n, got)
    requires !Clean(headers[n].1) || KeyOf(headers[n].0).None? || KeyOf(headers[n].0).value in got
    ensures !Framed(headers)
  {
    if KeyOf(headers[n].0).Some? && KeyOf(headers[n].0).value in got {
      var k := KeyOf(headers[n].0).value;
      assert Carries(headers[..n], k, got[k]);
      var h :| h in headers[..n] && KeyOf(h.0) == Some(k);
      var i :| 0 <= i < n && headers[..n][i] == h;
      assert !Distinct(headers);
    }
    if Framed(headers) {
      FullMeansDistinct(headers);
    }
  }

  lemma CollectedGrows(headers: seq<Header>, n: nat, got: map<Key, string>)
    requires n < |headers| && Collected(headers, n, got)
    requires Clean(headers[n].1) && KeyOf(headers[n].0).Some? && KeyOf(headers[n].0).value !in got
    ensures Collected(headers, n + 1, got[KeyOf(headers[n].0).value := headers[n].1])
  {
    var k := KeyOf(headers[n].0).value;
    var got' := got[k := headers[n].1];
    assert headers[..n + 1] == headers[..n] + [headers[n]];
    forall i | 0 <= i < n + 1 ensures HeaderIn(headers[i], got') {
      assert i < n ==> HeaderIn(headers[i], got);
    }
    forall m <- got' ensures Carries(headers[..n + 1], m, got'[m]) {
      if m == k {
        assert headers[n] in headers[..n + 1];
      } else {
        var h :| h in headers[..n] && KeyOf(h.0) == Some(m) && h.1 == got[m];
        assert h in headers[..n + 1];
      }
    }
    forall i, j | 0 <= i < j < n + 1 && KeyOf(headers[i].0).Some? ensures KeyOf(headers[i].0) != KeyOf(headers[j].0) {
      assert HeaderIn(headers[i], got);
      assert j < n ==> headers[..n][i] == headers[i] && headers[..n][j] == headers[j];
    }
  }

  lemma CollectedHeader(headers: seq<Header>, got: map<Key, string>, h: Header)
    requires Collected(headers, |headers|, got) && h in headers
    ensures HeaderIn(h, got)
  {
    var i :| 0 <= i < |headers| && headers[i] == h;
    assert HeaderIn(headers[i], got);
  }

  lemma CollectedIsFramed(headers: seq<Header>, got: map<Key, string>)
    requires |headers| == REQUIRED && Collected(headers, |headers|, got)
    ensures Framed(headers) && (forall k: Key :: k in got)
  {
    assert headers[..|headers|] == headers;
    forall h <- headers ensures Clean(h.1) && KeyOf(h.0).Some? {
      CollectedHeader(headers, got, h);
    }
    DistinctMeansFull(headers);
    forall k: Key ensures k in got {
      assert Present(headers, k);
      var h :| h in headers && KeyOf(h.0) == Some(k);
      CollectedHeader(headers, got, h);
    }
  }

  /** The request that the collected values give. */
  predicate Takes(values: map<Key, string>, body: Bytes, at: int, q: Request)
    requires (forall k: Key :: k in values)
  {
    && values[Host] == PUBLIC_HOST && values[ContentType] == "application/json" && values[ContentLength] == Decimal(|body|)
    && values[Authorization] == BEARER + q.compact && values[ZotToken] == q.zot && values[ForgejoToken] == q.forgejo
    && Token(q.compact) && Token(q.zot) && Token(q.forgejo) && q.promotion == body && q.receivedAt == at
  }

  /** The end of the parser: fixed values, length, credential and tokens. */
  method Take(values: map<Key, string>, body: Bytes, at: int) returns (r: Option<Request>)
    requires (forall k: Key :: k in values)
    ensures r.Some? ==> Takes(values, body, at, r.value)
    ensures r.None? ==> forall q :: !Takes(values, body, at, q)
  {
    if values[Host] != PUBLIC_HOST || values[ContentType] != "application/json" || values[ContentLength] != Decimal(|body|) {
      return None;
    }
    var authorization := values[Authorization];
    if !(BEARER <= authorization) {
      return None;
    }
    var compact := authorization[|BEARER|..];
    assert authorization == BEARER + compact;
    assert forall other: string | authorization == BEARER + other :: (BEARER + other)[|BEARER|..] == other;
    if !Token(compact) || !Token(values[ZotToken]) || !Token(values[ForgejoToken]) {
      return None;
    }
    return Some(Request(compact, values[ZotToken], values[ForgejoToken], body, at));
  }

  lemma TakenIsAccepted(verb: string, path: string, headers: seq<Header>, body: Bytes, at: int, values: map<Key, string>, q: Request)
    requires verb == "POST" && path == PROMOTION_PATH && 1 <= |body| <= MAX_REQUEST && at >= 0
    requires Framed(headers) && (forall k: Key :: k in values) && (forall k: Key :: Carries(headers, k, values[k]))
    ensures Takes(values, body, at, q) <==> Accepted(verb, path, headers, body, at, q)
  {
    if Accepted(verb, path, headers, body, at, q) {
      CarriesOnce(headers, Host, values[Host], PUBLIC_HOST);
      CarriesOnce(headers, ContentType, values[ContentType], "application/json");
      CarriesOnce(headers, ContentLength, values[ContentLength], Decimal(|body|));
      CarriesOnce(headers, Authorization, values[Authorization], BEARER + q.compact);
      CarriesOnce(headers, ZotToken, values[ZotToken], q.zot);
      CarriesOnce(headers, ForgejoToken, values[ForgejoToken], q.forgejo);
    }
  }

  /** `parse_dev_promotion_ingress`: exactly the accepted requests, and exactly what they carry. */
  method Parse(verb: string, path: string, headers: seq<Header>, body: Bytes, receivedAt: int) returns (r: Option<Request>)
    ensures r.Some? ==> Accepted(verb, path, headers, body, receivedAt, r.value)
    ensures r.None? ==> forall q :: !Accepted(verb, path, headers, body, receivedAt, q)
  {
    if verb != "POST" || path != PROMOTION_PATH || !(1 <= |body| <= MAX_REQUEST) || receivedAt < 0 || |headers| != REQUIRED {
      return None;
    }
    var values := CollectHeaders(headers);
    if values.None? {
      return None;
    }
    assert headers[..|headers|] == headers;
    forall q ensures Takes(values.value, body, receivedAt, q) <==> Accepted(verb, path, headers, body, receivedAt, q) {
      TakenIsAccepted(verb, path, headers, body, receivedAt, values.value, q);
    }
    r := Take(values.value, body, receivedAt);
  }

  // ----- the document in a body ---------------------------------------------

  const MAX_MEMBERS: nat := 40
  const MAX_DEPTH: nat := 4
  const MAX_NODES: nat := 100
  const MAX_ITEMS: nat := 4
  const MAX_STRING: nat := 2048

  /** The body as ASCII text; any other byte makes it no canonical JSON. */
  function Chars(body: Bytes): Option<string> {
    if forall b <- body :: b < 128 then
      Some(seq(|body|, i requires 0 <= i < |body| => if body[i] < 128 then body[i] as char else ' '))
    else None
  }

  function Count(items: Items): nat {
    if items.End? then 0 else 1 + Count(items.tail)
  }

  function Members(fs: Fields): nat {
    if fs.Close? then 0 else 1 + Members(fs.rest)
  }

  /** All values of a document, itself included. */
  function Nodes(v: Json): nat {
    match v
    case Array(items) => 1 + ItemNodes(items)
    case Object(fields) => 1 + FieldNodes(fields)
    case _ => 1
  }

  function ItemNodes(items: Items): nat {
    if items.End? then 0 else Nodes(items.head) + ItemNodes(items.tail)
  }

  function FieldNodes(fs: Fields): nat {
    if fs.Close? then 0 else Nodes(fs.value) + FieldNodes(fs.rest)
  }

  /** The bounds `_walk_json` puts on each value, `depth` levels below the root. */
  predicate Bounded(v: Json, depth: nat)
    decreases v
  {
    && depth <= MAX_DEPTH
    && match v
       case String(t) => |t| <= MAX_STRING
       case Array(items) => Count(items) <= MAX_ITEMS && ItemsBounded(items, depth + 1)
       case Object(fields) => FieldsBounded(fields, depth + 1)
       case _ => true
  }

  predicate ItemsBounded(items: Items, depth: nat)
    decreases items
  {
    items.Item? ==> Bounded(items.head, depth) && ItemsBounded(items.tail, depth)
  }

  predicate FieldsBounded(fs: Fields, depth: nat)
    decreases fs
  {
    fs.Field? ==> |fs.key| <= MAX_STRING && Bounded(fs.value, depth) && FieldsBounded(fs.rest, depth)
  }

  /** A float is canonical if Python writes it as it was read; one that is not
      finite has no text at all. `canon` is that rewriting. */
  predicate FloatsCanonical(canon: string -> string, v: Json) {
    match v
    case Float(l) => canon(l) == l
    case Array(items) => ItemFloats(canon, items)
    case Object(fields) => FieldFloats(canon, fields)
    case _ => true
  }

  predicate ItemFloats(canon: string -> string, items: Items) {
    items.Item? ==> FloatsCanonical(canon, items.head) && ItemFloats(canon, items.tail)
  }

  predicate FieldFloats(canon: string -> string, fs: Fields) {
    fs.Field? ==> FloatsCanonical(canon, fs.value) && FieldFloats(canon, fs.rest)
  }

  /** What the router requires of a document before it looks into it. */
  predicate Admissible(canon: string -> string, v: Json) {
    && v.Object? && Members(v.fields) <= MAX_MEMBERS && Nodes(v) <= MAX_NODES && Bounded(v, 0)
    && FloatsCanonical(canon, v)
  }

  /** `parse_bounded_json` and the comparison with `canonical_bytes`. */
  function ReadDocument(canon: string -> string, body: Bytes): Option<Json> {
    var text := Chars(body);
    if !(0 < |body| <= MAX_REQUEST) || text.None? then None
    else
      var v := Decode(text.value);
      if v.Some? && Admissible(canon, v.value) && CanonicalJson.Bytes(v.value) == text.value then v else None
  }

  /** The body is the canonical form of an admissible document. */
  predicate Carrying(canon: string -> string, body: Bytes, v: Json) {
    Good(v) && Admissible(canon, v) && |body| <= 4096 && Chars(body) == Some(CanonicalJson.Bytes(v))
  }

  /** A document is read from exactly the canonical bodies, and it is the one they carry. */
  lemma ReadsExactly(canon: string -> string, body: Bytes, v: Json)
    ensures ReadDocument(canon, body) == Some(v) <==> Carrying(canon, body, v)
  {
    RoundTripIffGood(v);
    if Carrying(canon, body, v) {
      assert Chars(body).value == CanonicalJson.Bytes(v) && |CanonicalJson.Bytes(v)| > 0;
    }
  }

  // ----- the router and the response ----------------------------------------

  function Codes(name: string): Text {
    seq(|name|, i requires 0 <= i < |name| => name[i] as nat)
  }

  function Lookup(fs: Fields, key: Text): Option<Json> {
    if fs.Close? then None else if fs.key == key then Some(fs.value) else Lookup(fs.rest, key)
  }

  /** `data.get(name)`: an explicit null is as good as none. */
  function Get(v: Json, name: string): Option<Json>
    requires v.Object?
  {
    var found := Lookup(v.fields, Codes(name));
    if found == Some(Null) then None else found
  }

  datatype Target = Canary | Analytics

  /** How an operation ends: a reply of some size, or one of the two refusals. */
  datatype Reply = Reply(size: nat) | ReplyRejected | ReplyUnavailable

  datatype Status = Accepted202 | Rejected403 | Unavailable503

  const ANALYTICS_SCHEMA: int := 2

  predicate SchemaIs(v: Json, n: int)
    requires v.Object?
  {
    Get(v, "schema_version") == Some(Number(n))
  }

  predicate NamesAnalytics(v: Json)
    requires v.Object?
  {
    Get(v, "product_id") == Some(String(Codes("analytics")))
  }

  /** The routing decision of `handle` on the bytes of the request; `valid` is the
      field check of `parse_analytics_request` against the reviewed source. */
  function Route(canon: string -> string, valid: Json -> bool, body: Bytes): Option<Target> {
    var d := ReadDocument(canon, body);
    if d.None? then None
    else if SchemaIs(d.value, ANALYTICS_SCHEMA) || NamesAnalytics(d.value) then
      if SchemaIs(d.value, ANALYTICS_SCHEMA) && NamesAnalytics(d.value) && Accepts(valid, Chars(body).value, d.value)
      then Some(Analytics) else None
    else if Get(d.value, "product_id") != None || !SchemaIs(d.value, 1) then None
    else Some(Canary)
  }

  /** Over all bodies: Analytics gets exactly the canonical forms of valid schema-2
      Analytics requests, the canary exactly the canonical schema-1 documents that
      name no product. */
  lemma RoutesExactly(canon: string -> string, valid: Json -> bool, body: Bytes)
    ensures Route(canon, valid, body) == Some(Analytics) <==>
      exists v :: Carrying(canon, body, v) && SchemaIs(v, 2) && NamesAnalytics(v) && valid(v)
    ensures Route(canon, valid, body) == Some(Canary) <==>
      exists v :: Carrying(canon, body, v) && SchemaIs(v, 1) && Get(v, "product_id") == None
  {
    forall v ensures ReadDocument(canon, body) == Some(v) <==> Carrying(canon, body, v) {
      ReadsExactly(canon, body, v);
    }
    var d := ReadDocument(canon, body);
    if d.Some? {
      AcceptsExactly(valid, Chars(body).value, d.value);
      assert Carrying(canon, body, d.value);
    }
  }

  /** A body that is not the canonical form of anything reaches nobody. */
  lemma NonCanonicalReachesNobody(canon: string -> string, valid: Json -> bool, body: Bytes)
    requires forall v | Good(v) :: Chars(body) != Some(CanonicalJson.Bytes(v))
    ensures Route(canon, valid, body) == None
  {
    RoutesExactly(canon, valid, body);
    if Route(canon, valid, body).Some? {
      ReadsExactly(canon, body, ReadDocument(canon, body).value);
    }
  }

  function Answer(reply: Reply): Status {
    match reply
    case Reply(size) => if size <= MAX_REPLY then Accepted202 else Unavailable503
    case ReplyRejected => Rejected403
    case ReplyUnavailable => Unavailable503
  }

  /** Refused at the door or by the router: nobody is called. */
  ghost predicate TurnedAway(verb: string, path: string, headers: seq<Header>, body: Bytes, at: int, target: Option<Target>) {
    (forall q :: !Accepted(verb, path, headers, body, at, q)) || target == None
  }

  /** `dispatch_inert_dev_promotion_ingress` over `handle`: at most one operation is
      called, with exactly what was accepted; the operations are their answers. */
  method Dispatch(verb: string, path: string, headers: seq<Header>, body: Bytes, receivedAt: int,
                  canon: string -> string, valid: Json -> bool, canary: Request -> Reply, analytics: Request -> Reply)
    returns (status: Status, call: Option<(Target, Request)>)
    ensures call == None <==> TurnedAway(verb, path, headers, body, receivedAt, Route(canon, valid, body))
    ensures call.Some? ==>
      Accepted(verb, path, headers, body, receivedAt, call.value.1) && Route(canon, valid, body) == Some(call.value.0)
    ensures status == if call == None then Rejected403
      else if call.value.0 == Canary then Answer(canary(call.value.1)) else Answer(analytics(call.value.1))
    ensures call.Some? ==>
      var reply := if call.value.0 == Canary then canary(call.value.1) else analytics(call.value.1);
      && (status == Accepted202 <==> reply.Reply? && reply.size <= 65536)
      && (status == Rejected403 <==> reply == ReplyRejected)
      && (status == Unavailable503 <==> reply == ReplyUnavailable || (reply.Reply? && reply.size > 65536))
  {
    var request := Parse(verb, path, headers, body, receivedAt);
    if request.None? {
      return Rejected403, None;
    }
    var target := Route(canon, valid, request.value.promotion);
    if target.None? {
      return Rejected403, None;
    }
    var reply := if target.value == Canary then canary(request.value) else analytics(request.value);
    return Answer(reply), Some((target.value, request.value));
  }
}
