/**
  The scope-file validators of pkg/validation/validation.go. `net.ParseIP`, `net.ParseCIDR`
  and the host that `url.Parse` reports are parameters: `parseIP`, `parseCIDR` and `urlHost`
  (None when the URL does not parse).
 */
module Validation {
  import opened Wrappers
  import opened Text
  import UrlExtract

  /** Why `ValidateDomain` rejects its input; all but the first carry the trimmed domain. */
  datatype DomainError =
    | EmptyDomain
    | DomainTooLong(domain: string)
    | DomainHasScheme(domain: string)
    | DomainBadFormat(domain: string)

  /** The longest domain name accepted, in characters. */
  const MaxDomainLength := 253

  /** A character of the class `[a-zA-Z0-9\-]`. */
  predicate LabelChar(c: char)
  {
    'a' <= c <= 'z' || 'A' <= c <= 'Z' || '0' <= c <= '9' || c == '-'
  }

  /** A character of the class `[a-zA-Z0-9\-\.]`. */
  predicate HostChar(c: char)
  {
    LabelChar(c) || c == '.'
  }

  /**
    The whole of `s` matches `^[a-zA-Z0-9\-]+\.[a-zA-Z0-9\-\.]+$`: a non-empty run of label
    characters, a dot at position `k`, and a non-empty run of label characters and dots.
   */
  ghost predicate MatchesDomainPattern(s: string)
  {
    exists k :: 0 < k < |s| - 1 && s[k] == '.'
      && (forall i :: 0 <= i < k ==> LabelChar(s[i]))
      && (forall i :: k < i < |s| ==> HostChar(s[i]))
  }

  /** The length of the longest prefix of label characters. */
  function LeadingLabel(s: string): (n: nat)
    ensures n <= |s|
    ensures forall i :: 0 <= i < n ==> LabelChar(s[i])
    ensures n < |s| ==> !LabelChar(s[n])
  {
    if s != [] && LabelChar(s[0]) then 1 + LeadingLabel(s[1..]) else 0
  }

  /** The pattern check as a scan: the first non-label character is a dot with text on both sides. */
  predicate DomainFormatOk(s: string)
  {
    var n := LeadingLabel(s);
    0 < n < |s| - 1 && s[n] == '.' && forall i :: n < i < |s| ==> HostChar(s[i])
  }

  /** The scan accepts exactly the strings the pattern matches. */
  lemma DomainFormatMatches(s: string)
    ensures DomainFormatOk(s) <==> MatchesDomainPattern(s)
  {
    var n := LeadingLabel(s);
    if MatchesDomainPattern(s) {
      var k :| 0 < k < |s| - 1 && s[k] == '.'
        && (forall i :: 0 <= i < k ==> LabelChar(s[i]))
        && (forall i :: k < i < |s| ==> HostChar(s[i]));
      assert !LabelChar(s[k]);
      assert n <= k;
      assert n >= k;
    }
  }

  /** A string the pattern matches holds no colon, so it never contains `://`. */
  lemma PatternExcludesScheme(s: string)
    ensures MatchesDomainPattern(s) ==> !Contains(s, "://")
  {
    ContainsFirst(s, "://");
    if MatchesDomainPattern(s) {
      var k :| 0 < k < |s| - 1 && s[k] == '.'
        && (forall i :: 0 <= i < k ==> LabelChar(s[i]))
        && (forall i :: k < i < |s| ==> HostChar(s[i]));
      assert forall i :: 0 <= i < |s| ==> HostChar(s[i]);
      assert ':' !in s;
    }
  }

  /**
    `ValidateDomain`. The emptiness test looks at the raw input; the length, scheme and
    pattern tests look at the input with surrounding white space removed.
   */
  function ValidateDomain(domain: string): (r: Outcome<DomainError>)
    ensures r == Fail(EmptyDomain) <==> domain == ""
    ensures r.Pass? <==> domain != "" && |TrimSpace(domain)| <= MaxDomainLength && MatchesDomainPattern(TrimSpace(domain))
    ensures r.Fail? && r.error != EmptyDomain ==> r.error.domain == TrimSpace(domain)
    ensures r.Fail? && r.error.DomainTooLong? <==> domain != "" && |TrimSpace(domain)| > MaxDomainLength
    ensures r.Fail? && r.error.DomainHasScheme? <==>
              domain != "" && |TrimSpace(domain)| <= MaxDomainLength && Contains(TrimSpace(domain), "://")
    ensures r.Fail? && r.error.DomainBadFormat? <==>
              domain != "" && |TrimSpace(domain)| <= MaxDomainLength && !Contains(TrimSpace(domain), "://")
              && !MatchesDomainPattern(TrimSpace(domain))
    ensures r.Pass? ==> 3 <= |TrimSpace(domain)| && '.' in TrimSpace(domain)
  {
    DomainFormatMatches(TrimSpace(domain));
    PatternExcludesScheme(TrimSpace(domain));
    if domain == "" then Fail(EmptyDomain)
    else
      var d := TrimSpace(domain);
      if |d| > MaxDomainLength then Fail(DomainTooLong(d))
      else if Contains(d, "://") then Fail(DomainHasScheme(d))
      else if !DomainFormatOk(d) then Fail(DomainBadFormat(d))
      else Pass
  }

  /** A pattern check that needs no scan: `s` is a label, a dot, and a run of host characters. */
  lemma MatchesAt(s: string, k: nat)
    requires 0 < k < |s| - 1 && s[k] == '.'
    requires forall i :: 0 <= i < k ==> LabelChar(s[i])
    requires forall i :: k < i < |s| ==> HostChar(s[i])
    ensures MatchesDomainPattern(s)
  {
  }

  /** The first domain of the example scope file passes. */
  lemma ExampleDomainPasses()
    ensures ValidateDomain("example.com") == Pass
  {
    var a := "example.com";
    TrimUnpadded(a);
    MatchesAt(a, 7);
  }

  /** A hyphen in the leading label is accepted: the second domain of the example scope file passes. */
  lemma HyphenatedDomainPasses()
    ensures ValidateDomain("test-domain.org") == Pass
  {
    var b := "test-domain.org";
    TrimUnpadded(b);
    MatchesAt(b, 11);
  }

  /** Input made only of white space is not empty, so it fails the pattern test instead. */
  lemma BlankDomainIsBadFormat(domain: string)
    requires domain != ""
    requires forall k :: 0 <= k < |domain| ==> IsSpace(domain[k])
    ensures ValidateDomain(domain) == Fail(DomainBadFormat(""))
  {
    TrimBlank(domain);
    assert !Contains("", "://");
  }

  /** A URL is refused with the scheme error, not the pattern error. */
  lemma URLIsRefusedAsScheme(rest: string)
    requires rest == [] || !IsSpace(rest[|rest| - 1])
    requires |rest| <= MaxDomainLength - 8
    ensures ValidateDomain("https://" + rest) == Fail(DomainHasScheme("https://" + rest))
  {
    var d := "https://" + rest;
    assert d[|d| - 1] == if rest == [] then '/' else rest[|rest| - 1];
    TrimUnpadded(d);
    assert d[5..8] == "://";
    assert OccursAt(d, "://", 5);
    ContainsAt(d, "://");
  }

  /** Why `ValidateIP` rejects its input; the last two carry the trimmed input. */
  datatype IPError =
    | EmptyIP
    | InvalidCIDR(ip: string)
    | InvalidAddress(ip: string)

  /**
    `ValidateIP`. After trimming, an input holding `/` is judged by the CIDR parser alone
    and any other input by the address parser alone.
   */
  function ValidateIP(ip: string, parseIP: string -> bool, parseCIDR: string -> bool): (r: Outcome<IPError>)
    ensures r == Fail(EmptyIP) <==> ip == ""
    ensures ip != "" && '/' in TrimSpace(ip) ==> (r.Pass? <==> parseCIDR(TrimSpace(ip)))
    ensures ip != "" && '/' !in TrimSpace(ip) ==> (r.Pass? <==> parseIP(TrimSpace(ip)))
    ensures r.Fail? && r.error.InvalidCIDR? ==> r.error.ip == TrimSpace(ip) && '/' in r.error.ip
    ensures r.Fail? && r.error.InvalidAddress? ==> r.error.ip == TrimSpace(ip) && '/' !in r.error.ip
  {
    ContainsChar(TrimSpace(ip), '/');
    if ip == "" then Fail(EmptyIP)
    else
      var trimmed := TrimSpace(ip);
      if Contains(trimmed, "/") then (if parseCIDR(trimmed) then Pass else Fail(InvalidCIDR(trimmed)))
      else if parseIP(trimmed) == false then Fail(InvalidAddress(trimmed))
      else Pass
  }

  /** A CIDR block is never shown to the address parser. */
  lemma CIDRIgnoresAddressParser(ip: string, parseIP: string -> bool, otherParseIP: string -> bool, parseCIDR: string -> bool)
    requires '/' in TrimSpace(ip)
    ensures ValidateIP(ip, parseIP, parseCIDR) == ValidateIP(ip, otherParseIP, parseCIDR)
  {
  }

  /** A plain address is never shown to the CIDR parser. */
  lemma AddressIgnoresCIDRParser(ip: string, parseIP: string -> bool, parseCIDR: string -> bool, otherParseCIDR: string -> bool)
    requires '/' !in TrimSpace(ip)
    ensures ValidateIP(ip, parseIP, parseCIDR) == ValidateIP(ip, parseIP, otherParseCIDR)
  {
  }

  /** Why `ValidateURL` rejects its input; the last two carry the endpoint with its scheme. */
  datatype URLError =
    | EmptyEndpoint
    | UnparsableURL(endpoint: string)
    | MissingHost(endpoint: string)

  /** A case-sensitive `http://` or `https://` prefix. */
  predicate HasExactScheme(s: string)
  {
    HasPrefix(s, "http://") || HasPrefix(s, "https://")
  }

  /** The endpoint handed to the URL parser: `https://` is prepended unless an exact scheme is present. */
  function Endpoint(s: string): string
  {
    if !HasExactScheme(s) then "https://" + s else s
  }

  /** The prefix is added exactly when no exact scheme is present, and the result always has one. */
  lemma EndpointAddsScheme(s: string)
    ensures Endpoint(s) != s <==> !HasExactScheme(s)
    ensures HasExactScheme(Endpoint(s))
    ensures Endpoint(Endpoint(s)) == Endpoint(s)
  {
    if !HasExactScheme(s) {
      assert |Endpoint(s)| > |s|;
      assert Endpoint(s)[..8] == "https://";
    }
  }

  /**
    Unlike the URL extractors, the validator's scheme test is case-sensitive: an upper-case
    scheme gets a second scheme in front of it, where the extractors keep the input as it is.
   */
  lemma SchemeTestsDiffer(rest: string)
    ensures Endpoint("HTTP://" + rest) == "https://HTTP://" + rest
    ensures UrlExtract.WithScheme("HTTP://" + rest) == "HTTP://" + rest
  {
    var s := "HTTP://" + rest;
    assert s[..7] == "HTTP://";
    assert !HasPrefix(s, "http://") by { assert s[..7][1] == 'T'; }
    assert !HasPrefix(s, "https://") by {
      if |s| >= 8 { assert s[..8][1] == 'T'; }
    }
    assert Lower(s)[..7] == "http://" by {
      forall i | 0 <= i < 7 ensures Lower(s)[i] == "http://"[i] {
        assert s[i] == "HTTP://"[i];
      }
    }
  }

  /**
    `ValidateURL`. After trimming and adding a scheme, the endpoint must parse and have a
    non-empty host.
   */
  function ValidateURL(endpoint: string, urlHost: string -> Option<string>): (r: Outcome<URLError>)
    ensures r == Fail(EmptyEndpoint) <==> endpoint == ""
    ensures r.Pass? <==> endpoint != "" && urlHost(Endpoint(TrimSpace(endpoint))).Some? && urlHost(Endpoint(TrimSpace(endpoint))).value != ""
    ensures r.Fail? && r.error != EmptyEndpoint ==> r.error.endpoint == Endpoint(TrimSpace(endpoint)) && HasExactScheme(r.error.endpoint)
    ensures r.Fail? && r.error.UnparsableURL? <==> endpoint != "" && urlHost(Endpoint(TrimSpace(endpoint))).None?
    ensures r.Fail? && r.error.MissingHost? <==>
              endpoint != "" && urlHost(Endpoint(TrimSpace(endpoint))).Some? && urlHost(Endpoint(TrimSpace(endpoint))).value == ""
  {
    EndpointAddsScheme(TrimSpace(endpoint));
    if endpoint == "" then Fail(EmptyEndpoint)
    else
      var withScheme := Endpoint(TrimSpace(endpoint));
      var host := urlHost(withScheme);
      if host.None? then Fail(UnparsableURL(withScheme))
      else if host.value == "" then Fail(MissingHost(withScheme))
      else Pass
  }
}
