/** The proxy classifier, `usedproxy` and `identifyProxy`: substring tests on
    the raw request text, in a fixed order of priority. Reading a header's
    value out of the request (`getHeaderValue`) is not part of this model; it
    is passed in as a function. */
module Proxy {
  import opened PhpStrings

  /** `usedproxy($request)`: the request holds `Via:` anywhere. */
  predicate UsedProxy(request: string)
    ensures UsedProxy(request) <==> exists i :: 0 <= i <= |request| && "Via:" <= request[i..]
  {
    ContainsAt(request, "Via:");
    Contains(request, "Via:")
  }

  /** The markers tested after the BlueCoat header, in order of priority. */
  function Marker(i: int): string
    requires 0 <= i < 4
  {
    if i == 0 then "ISA" else if i == 1 then "IWSS" else if i == 2 then "NetCache" else "squid"
  }

  /** The product each marker names. */
  function Product(i: int): string
    requires 0 <= i < 4
  {
    if i == 0 then "Microsoft ISA"
    else if i == 1 then "Trend Micro InterScan Web Security Suite (IWSS)"
    else if i == 2 then "NetCache NetApp"
    else "Squid Proxy"
  }

  /** Marker `i` is the first marker the request holds, in any letter case. */
  predicate FirstMarker(request: string, i: int)
  {
    0 <= i < 4 && ContainsIgnoreCase(request, Marker(i)) &&
    forall j :: 0 <= j < i ==> !ContainsIgnoreCase(request, Marker(j))
  }

  /** The product and its details: a BlueCoat header first (case-sensitive,
      its value as details); otherwise the product of the first marker the
      request holds in any case, or `unknown`, with details `none`. */
  function ProxyProduct(request: string, getHeaderValue: (string, string) -> string): (r: (string, string))
    ensures Contains(request, "X-BlueCoat-Via:") ==>
      r == ("Bluecoat", getHeaderValue(request, "X-BlueCoat-Via"))
    ensures r.0 != "Bluecoat" ==> r.1 == "none"
    ensures r.0 == "unknown" <==>
      !Contains(request, "X-BlueCoat-Via:") && !ContainsIgnoreCase(request, "ISA") &&
      !ContainsIgnoreCase(request, "IWSS") && !ContainsIgnoreCase(request, "NetCache") &&
      !ContainsIgnoreCase(request, "squid")
  {
    if Contains(request, "X-BlueCoat-Via:") then ("Bluecoat", getHeaderValue(request, "X-BlueCoat-Via"))
    else if ContainsIgnoreCase(request, "ISA") then ("Microsoft ISA", "none")
    else if ContainsIgnoreCase(request, "IWSS") then ("Trend Micro InterScan Web Security Suite (IWSS)", "none")
    else if ContainsIgnoreCase(request, "NetCache") then ("NetCache NetApp", "none")
    else if ContainsIgnoreCase(request, "squid") then ("Squid Proxy", "none")
    else ("unknown", "none")
  }

  /** Without a BlueCoat header, the product is the one named by the first
      marker the request holds, so `ISA` wins over `IWSS`, `IWSS` over
      `NetCache` and `NetCache` over `squid`. */
  lemma ProductOfFirstMarker(request: string, getHeaderValue: (string, string) -> string, i: int)
    requires !Contains(request, "X-BlueCoat-Via:")
    ensures FirstMarker(request, i) ==> ProxyProduct(request, getHeaderValue) == (Product(i), "none")
  {
    if FirstMarker(request, i) {
      if i >= 1 { assert !ContainsIgnoreCase(request, Marker(0)); }
      if i >= 2 { assert !ContainsIgnoreCase(request, Marker(1)); }
      if i >= 3 { assert !ContainsIgnoreCase(request, Marker(2)); }
    }
  }

  /** `identifyProxy($request)`: the forwarded-for and via values with the
      product and its details when a proxy is used. */
  function IdentifyProxy(request: string, getHeaderValue: (string, string) -> string): (r: string)
    ensures !UsedProxy(request) ==> r == "no proxy used"
    ensures UsedProxy(request) ==>
      r == "Proxy used (For: " + getHeaderValue(request, "X-Forwarded-For") +
        ", Via: " + getHeaderValue(request, "Via") +
        ", Product: " + ProxyProduct(request, getHeaderValue).0 +
        ", Details: " + ProxyProduct(request, getHeaderValue).1 + ")"
  {
    if UsedProxy(request) then
      var via := getHeaderValue(request, "Via");
      var forwardedFor := getHeaderValue(request, "X-Forwarded-For");
      var product := ProxyProduct(request, getHeaderValue);
      "Proxy used (For: " + forwardedFor + ", Via: " + via + ", Product: " + product.0 +
        ", Details: " + product.1 + ")"
    else
      "no proxy used"
  }

  /** The answer is `no proxy used` exactly when the request has no `Via:`. */
  lemma NoProxyIff(request: string, getHeaderValue: (string, string) -> string)
    ensures IdentifyProxy(request, getHeaderValue) == "no proxy used" <==> !UsedProxy(request)
  {
    if UsedProxy(request) {
      var r := IdentifyProxy(request, getHeaderValue);
      assert r[0] == 'P';
    }
  }

  /** A BlueCoat header is itself a `Via:` header, so a BlueCoat request is
      always reported as proxied. */
  lemma BlueCoatIsProxied(request: string)
    requires Contains(request, "X-BlueCoat-Via:")
    ensures UsedProxy(request)
  {
    var b := "X-BlueCoat-Via:";
    assert "Via:" <= b[11..];
    ContainsAt(b, "Via:");
    ContainsTransitive(request, b, "Via:");
  }

  /** A request with a BlueCoat header is reported as proxied by BlueCoat,
      with that header's value as the details. */
  lemma BlueCoatReport(request: string, getHeaderValue: (string, string) -> string)
    requires Contains(request, "X-BlueCoat-Via:")
    ensures IdentifyProxy(request, getHeaderValue) ==
      "Proxy used (For: " + getHeaderValue(request, "X-Forwarded-For") +
      ", Via: " + getHeaderValue(request, "Via") + ", Product: Bluecoat, Details: " +
      getHeaderValue(request, "X-BlueCoat-Via") + ")"
  {
    BlueCoatIsProxied(request);
  }

  /** A lower-cased request never holds the BlueCoat header name, which
      starts with a capital. */
  lemma LowerHasNoBlueCoat(request: string)
    ensures !Contains(Lower(request), "X-BlueCoat-Via:")
  {
    var l := Lower(request);
    var b := "X-BlueCoat-Via:";
    forall i | 0 <= i <= |l|
      ensures !(b <= l[i..])
    {
      if i < |l| {
        assert l[i..][0] == l[i] != 'X';
      }
    }
    ContainsAt(l, b);
  }

  /** Apart from the BlueCoat test, the product does not depend on the
      request's letter case. */
  lemma ProductIgnoresCase(request: string, getHeaderValue: (string, string) -> string)
    requires !Contains(request, "X-BlueCoat-Via:")
    ensures ProxyProduct(Lower(request), getHeaderValue) == ProxyProduct(request, getHeaderValue)
  {
    LowerHasNoBlueCoat(request);
    ContainsIgnoreCaseOfLower(request, "ISA");
    ContainsIgnoreCaseOfLower(request, "IWSS");
    ContainsIgnoreCaseOfLower(request, "NetCache");
    ContainsIgnoreCaseOfLower(request, "squid");
  }
}
