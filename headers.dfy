/** The request side of the engine: the header collection as `getallheaders()`
    delivers it (an ordered array from header name to value), the fourteen
    signal kinds that each have a reference table, the header-order signal
    (`getHeaderOrder`) and the number of signals a request could match on
    (`countHitPossibilities`). */
module Headers {
  import opened PhpStrings

  /** One entry of the header array: its key and its value. */
  datatype Header = Header(name: string, value: string)

  type HeaderList = seq<Header>

  /** The signal kinds, one per reference table, in the order the matcher
      consults them. */
  datatype Kind =
    | UserAgent | Accept | AcceptLanguage | AcceptEncoding | AcceptCharset
    | KeepAlive | Connection | CacheControl | UaPixels | UaColor | UaOs
    | UaCpu | Te | HeaderOrder

  /** The thirteen kinds read directly from a header. */
  const HEADER_KINDS: seq<Kind> := [
    UserAgent, Accept, AcceptLanguage, AcceptEncoding, AcceptCharset,
    KeepAlive, Connection, CacheControl, UaPixels, UaColor, UaOs, UaCpu, Te
  ]

  /** All fourteen kinds, the synthesized header order last. */
  const ALL_KINDS: seq<Kind> := HEADER_KINDS + [HeaderOrder]

  /** The fourteen kinds, appended one by one in the matcher's order. */
  lemma AllKindsInOrder()
    ensures [] + [UserAgent] + [Accept] + [AcceptLanguage] + [AcceptEncoding] + [AcceptCharset] +
      [KeepAlive] + [Connection] + [CacheControl] + [UaPixels] + [UaColor] + [UaOs] + [UaCpu] + [Te] +
      [HeaderOrder] == ALL_KINDS
  {
  }

  /** The header key a kind is read from (case-sensitive array key). */
  function HeaderName(k: Kind): string
    requires k != HeaderOrder
  {
    match k
    case UserAgent => "User-Agent"
    case Accept => "Accept"
    case AcceptLanguage => "Accept-Language"
    case AcceptEncoding => "Accept-Encoding"
    case AcceptCharset => "Accept-Charset"
    case KeepAlive => "Keep-Alive"
    case Connection => "Connection"
    case CacheControl => "Cache-Control"
    case UaPixels => "UA-Pixels"
    case UaColor => "UA-Color"
    case UaOs => "UA-OS"
    case UaCpu => "UA-CPU"
    case Te => "TE"
  }

  /** `array_key_exists(name, $rawHeaders)`. */
  predicate HasKey(h: HeaderList, name: string)
  {
    h != [] && (h[0].name == name || HasKey(h[1..], name))
  }

  /** Entry `i` is the first one whose key is `name`. */
  predicate FirstWithName(h: HeaderList, name: string, i: int)
  {
    0 <= i < |h| && h[i].name == name && forall j :: 0 <= j < i ==> h[j].name != name
  }

  /** `$rawHeaders[name]`: the value stored under that key, and `""` for a
      missing key (PHP's `null`, which compares equal to `''`). The array has
      one entry per key; on a list that repeats a key the first entry counts. */
  function Lookup(h: HeaderList, name: string): (v: string)
    ensures !HasKey(h, name) ==> v == ""
    ensures HasKey(h, name) ==> exists i :: FirstWithName(h, name, i) && h[i].value == v
  {
    if h == [] then ""
    else if h[0].name == name then
      assert FirstWithName(h, name, 0);
      h[0].value
    else
      var v := Lookup(h[1..], name);
      if HasKey(h, name) then
        var i :| FirstWithName(h[1..], name, i) && h[1..][i].value == v;
        assert FirstWithName(h, name, i + 1);
        v
      else v
  }

  lemma {:induction false} NoKeyInEmpty(name: string)
    ensures !HasKey([], name)
  {
  }

  // ---------------------------------------------------------------- getHeaderOrder

  /** What one header contributes to the order signal: the part of the entry
      before its first `:`, then `", "`. The `foreach` walks the array's
      values, so it is the value that is cut, not the key. */
  function OrderItem(hd: Header): string
  {
    SplitFirst(hd.value, ':').0 + ", "
  }

  /** The header-order signal as `getHeaderOrder` returns it: one item per
      entry, in order. The `rtrim` call discards its result, so a non-empty
      order keeps its trailing `", "`. */
  function OrderSignal(h: HeaderList): (o: string)
    ensures o == "" <==> h == []
    ensures h != [] ==> |o| >= 2 && o[|o| - 2..] == ", "
  {
    if h == [] then "" else OrderSignal(h[..|h| - 1]) + OrderItem(h[|h| - 1])
  }

  /** `getHeaderOrder($rawHeaders)`. */
  method GetHeaderOrder(h: HeaderList) returns (order: string)
    ensures order == OrderSignal(h)
  {
    order := "";
    for i := 0 to |h|
      invariant order == OrderSignal(h[..i])
    {
      var key := SplitFirst(h[i].value, ':').0;
      order := order + key + ", ";
      assert h[..i + 1][..i] == h[..i];
    }
    assert h[..|h|] == h;
  }

  /** A non-empty order signal always ends in a space, so it is never equal to
      a right-trimmed text. */
  lemma OrderSignalEndsTrimmable(h: HeaderList)
    requires h != []
    ensures EndsTrimmable(OrderSignal(h))
  {
    var o := OrderSignal(h);
    assert o[|o| - 1] == o[|o| - 2..][1] == ' ';
  }

  /** The order signal is built from the header values, not the keys: a
      single `User-Agent` header gives its value with a trailing separator. */
  lemma OrderSignalReadsValues()
    ensures OrderSignal([Header("User-Agent", "Mozilla/5.0")]) == "Mozilla/5.0, "
  {
    var h := [Header("User-Agent", "Mozilla/5.0")];
    assert h[..0] == [];
    assert ':' !in "Mozilla/5.0";
  }

  // ---------------------------------------------------------------- countHitPossibilities

  /** The value the matcher looks up for a kind. */
  function SignalValue(h: HeaderList, k: Kind): string
  {
    if k == HeaderOrder then OrderSignal(h) else Lookup(h, HeaderName(k))
  }

  function Indicator(b: bool): nat
  {
    if b then 1 else 0
  }

  /** The header key of kind `k` is present (`array_key_exists`). */
  predicate KeyPresent(h: HeaderList, k: Kind)
  {
    k != HeaderOrder && HasKey(h, HeaderName(k))
  }

  /** How many of `kinds` have their header key present (whatever its value). */
  function PresentCount(h: HeaderList, kinds: seq<Kind>): (n: nat)
    ensures n <= |kinds|
    ensures h == [] ==> n == 0
  {
    if kinds == [] then 0
    else PresentCount(h, kinds[..|kinds| - 1]) + Indicator(KeyPresent(h, kinds[|kinds| - 1]))
  }

  /** The number of signals the request could match on: the known header keys
      present, plus one for a non-empty header order. It lies in [0, 14] and
      is 0 exactly for an empty header collection. */
  function HitPossibilities(h: HeaderList): (n: nat)
    ensures n <= 14
    ensures n == 0 <==> h == []
  {
    PresentCount(h, HEADER_KINDS) + (if OrderSignal(h) != "" then 1 else 0)
  }

  /** `countHitPossibilities($rawHeaders)`: thirteen key-presence tests and
      the header-order test, each adding one. `$count` starts as `null`,
      which PHP increments to 1 and returns as `null` (0) when nothing
      matched. */
  method CountHitPossibilities(h: HeaderList) returns (count: int)
    ensures count == HitPossibilities(h)
  {
    count := 0;
    count := count + Indicator(KeyPresent(h, UserAgent));
    count := count + Indicator(KeyPresent(h, Accept));
    count := count + Indicator(KeyPresent(h, AcceptLanguage));
    count := count + Indicator(KeyPresent(h, AcceptEncoding));
    count := count + Indicator(KeyPresent(h, AcceptCharset));
    count := count + Indicator(KeyPresent(h, KeepAlive));
    count := count + Indicator(KeyPresent(h, Connection));
    count := count + Indicator(KeyPresent(h, CacheControl));
    count := count + Indicator(KeyPresent(h, UaPixels));
    count := count + Indicator(KeyPresent(h, UaColor));
    count := count + Indicator(KeyPresent(h, UaOs));
    count := count + Indicator(KeyPresent(h, UaCpu));
    count := count + Indicator(KeyPresent(h, Te));
    var order := GetHeaderOrder(h);
    count := count + Indicator(order != "");
    PresentCountOfHeaderKinds(h);
  }

  /** `PresentCount` over the thirteen header kinds, term by term in the order
      `countHitPossibilities` tests them. */
  lemma {:induction false} PresentCountOfHeaderKinds(h: HeaderList)
    ensures PresentCount(h, HEADER_KINDS) ==
      Indicator(KeyPresent(h, UserAgent)) +
      Indicator(KeyPresent(h, Accept)) +
      Indicator(KeyPresent(h, AcceptLanguage)) +
      Indicator(KeyPresent(h, AcceptEncoding)) +
      Indicator(KeyPresent(h, AcceptCharset)) +
      Indicator(KeyPresent(h, KeepAlive)) +
      Indicator(KeyPresent(h, Connection)) +
      Indicator(KeyPresent(h, CacheControl)) +
      Indicator(KeyPresent(h, UaPixels)) +
      Indicator(KeyPresent(h, UaColor)) +
      Indicator(KeyPresent(h, UaOs)) +
      Indicator(KeyPresent(h, UaCpu)) +
      Indicator(KeyPresent(h, Te))
  {
    var ks: seq<Kind> := [];
    PresentCountSnoc(h, ks, UserAgent);
    ks := ks + [UserAgent];
    PresentCountSnoc(h, ks, Accept);
    ks := ks + [Accept];
    PresentCountSnoc(h, ks, AcceptLanguage);
    ks := ks + [AcceptLanguage];
    PresentCountSnoc(h, ks, AcceptEncoding);
    ks := ks + [AcceptEncoding];
    PresentCountSnoc(h, ks, AcceptCharset);
    ks := ks + [AcceptCharset];
    PresentCountSnoc(h, ks, KeepAlive);
    ks := ks + [KeepAlive];
    PresentCountSnoc(h, ks, Connection);
    ks := ks + [Connection];
    PresentCountSnoc(h, ks, CacheControl);
    ks := ks + [CacheControl];
    PresentCountSnoc(h, ks, UaPixels);
    ks := ks + [UaPixels];
    PresentCountSnoc(h, ks, UaColor);
    ks := ks + [UaColor];
    PresentCountSnoc(h, ks, UaOs);
    ks := ks + [UaOs];
    PresentCountSnoc(h, ks, UaCpu);
    ks := ks + [UaCpu];
    PresentCountSnoc(h, ks, Te);
    ks := ks + [Te];
    assert ks == HEADER_KINDS;
  }

  lemma PresentCountSnoc(h: HeaderList, ks: seq<Kind>, k: Kind)
    ensures PresentCount(h, ks + [k]) == PresentCount(h, ks) + Indicator(KeyPresent(h, k))
  {
    assert (ks + [k])[..|ks|] == ks;
  }
}
