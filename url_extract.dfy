/**
  `URLExtractDomains` and `URLExtractIPs` (pkg/pipeline/operator_url_extract_domains.go,
  pkg/pipeline/operator_url_extract_ips.go). `url.Parse` followed by `Hostname()` is the
  partial function `hostname` (None when parsing fails); `net.ParseIP` is the predicate
  `parseIP`.
 */
module UrlExtract {
  import opened Wrappers
  import opened Text
  import opened Seqs

  /** A case-insensitive `http://` or `https://` prefix. */
  predicate HasWebScheme(raw: string)
  {
    HasPrefix(Lower(raw), "http://") || HasPrefix(Lower(raw), "https://")
  }

  /** The string handed to the URL parser: `https://` is prepended unless a web scheme is present. */
  function WithScheme(raw: string): string
  {
    if !HasWebScheme(raw) then "https://" + raw else raw
  }

  /** The prefix is added exactly when no web scheme is present, and the result always has one. */
  lemma WithSchemeAddsPrefix(raw: string)
    ensures WithScheme(raw) != raw <==> !HasWebScheme(raw)
    ensures HasWebScheme(WithScheme(raw))
  {
    if !HasWebScheme(raw) {
      assert |WithScheme(raw)| > |raw|;
      var s := "https://" + raw;
      assert Lower(s)[..8] == Lower("https://") == "https://";
    }
  }

  /** Adding the scheme twice is adding it once. */
  lemma WithSchemeIdempotent(raw: string)
    ensures WithScheme(WithScheme(raw)) == WithScheme(raw)
  {
    WithSchemeAddsPrefix(raw);
  }

  /** The non-empty host of one input, or None when the URL does not parse or has no host. */
  function HostOf(raw: string, hostname: string -> Option<string>): (r: Option<string>)
    ensures r.Some? ==> r.value != "" && hostname(WithScheme(raw)) == r
    ensures r.None? ==> hostname(WithScheme(raw)).None? || hostname(WithScheme(raw)) == Some("")
  {
    match hostname(WithScheme(raw))
    case None => None
    case Some(host) => if host == "" then None else Some(host)
  }

  /** The values `f` yields for the inputs, as the `unique...` map of an extractor collects them. */
  function Collected(us: seq<string>, f: string -> Option<string>): set<string>
  {
    if us == [] then {}
    else
      var last := f(us[|us| - 1]);
      Collected(us[..|us| - 1], f) + (if last.Some? then {last.value} else {})
  }

  lemma CollectedSnoc(us: seq<string>, u: string, f: string -> Option<string>)
    ensures Collected(us + [u], f) == Collected(us, f) + (if f(u).Some? then {f(u).value} else {})
  {
    assert (us + [u])[..|us|] == us;
  }

  /** A value is collected exactly when some input yields it. */
  lemma {:induction false} CollectedIff(us: seq<string>, f: string -> Option<string>, x: string)
    ensures x in Collected(us, f) <==> exists i :: 0 <= i < |us| && f(us[i]) == Some(x)
  {
    if us != [] {
      var init := us[..|us| - 1];
      CollectedIff(init, f, x);
      if exists i :: 0 <= i < |us| && f(us[i]) == Some(x) {
        var i :| 0 <= i < |us| && f(us[i]) == Some(x);
        if i < |init| {
          assert init[i] == us[i];
        }
      }
      if exists i :: 0 <= i < |init| && f(init[i]) == Some(x) {
        var i :| 0 <= i < |init| && f(init[i]) == Some(x);
        assert us[i] == init[i];
      }
    }
  }

  /** Copying the keys of a set into a slice, in whatever order they come out. */
  method Keys(s: set<string>) returns (r: seq<string>)
    ensures NoDuplicates(r) && |r| == |s|
    ensures forall x :: x in r <==> x in s
  {
    r := [];
    var remaining := s;
    while remaining != {}
      invariant remaining <= s
      invariant NoDuplicates(r) && |r| + |remaining| == |s|
      invariant forall x :: x in r <==> x in s && x !in remaining
      decreases remaining
    {
      var x :| x in remaining;
      r := r + [x];
      remaining := remaining - {x};
    }
  }

  function HostExtractor(hostname: string -> Option<string>): string -> Option<string>
  {
    raw => HostOf(raw, hostname)
  }

  /** `URLExtractDomains`: every non-empty host of a parsable input, once each. */
  method URLExtractDomains(urls: seq<string>, hostname: string -> Option<string>) returns (domains: seq<string>)
    ensures NoDuplicates(domains)
    ensures forall d :: d in domains <==> exists i :: 0 <= i < |urls| && HostOf(urls[i], hostname) == Some(d)
  {
    ghost var f := HostExtractor(hostname);
    var uniqueDomains: set<string> := {};
    var i := 0;
    while i < |urls|
      invariant 0 <= i <= |urls|
      invariant uniqueDomains == Collected(urls[..i], f)
    {
      CollectedSnoc(urls[..i], urls[i], f);
      assert urls[..i + 1] == urls[..i] + [urls[i]];
      var parsableURL := urls[i];
      if !HasPrefix(Lower(parsableURL), "http://") && !HasPrefix(Lower(parsableURL), "https://") {
        parsableURL := "https://" + parsableURL;
      }
      assert parsableURL == WithScheme(urls[i]);
      var parsed := hostname(parsableURL);
      if parsed.None? {
        i := i + 1;
        continue;
      }
      var host := parsed.value;
      if host == "" {
        i := i + 1;
        continue;
      }
      uniqueDomains := uniqueDomains + {host};
      i := i + 1;
    }
    assert urls[..i] == urls;
    domains := Keys(uniqueDomains);
    forall d ensures d in domains <==> exists i :: 0 <= i < |urls| && HostOf(urls[i], hostname) == Some(d) {
      CollectedIff(urls, f, d);
    }
  }

  /** A host of the form `[...]`, which has at least the two brackets. */
  predicate Bracketed(host: string)
  {
    HasPrefix(host, "[") && HasSuffix(host, "]")
  }

  lemma BracketedLength(host: string)
    requires Bracketed(host)
    ensures |host| >= 2
  {
    assert host[0] == '[' by { assert host[..1] == "["; }
    assert host[|host| - 1] == ']' by { assert host[|host| - 1..] == "]"; }
  }

  /** The text between the brackets of a bracketed host. */
  function Unbracketed(host: string): (inner: string)
    requires Bracketed(host)
    ensures |inner| == |host| - 2 && host == "[" + inner + "]"
  {
    BracketedLength(host);
    host[1..|host| - 1]
  }

  /**
    The address one input contributes: the host when it parses as an IP, else the text
    between brackets when the host is bracketed and that text parses, else nothing.
   */
  function IPOf(raw: string, hostname: string -> Option<string>, parseIP: string -> bool): (r: Option<string>)
    ensures r.Some? ==> parseIP(r.value) && HostOf(raw, hostname).Some?
    ensures r.Some? ==> r.value == HostOf(raw, hostname).value
                        || (Bracketed(HostOf(raw, hostname).value) && r.value == Unbracketed(HostOf(raw, hostname).value))
  {
    match HostOf(raw, hostname)
    case None => None
    case Some(host) =>
      if parseIP(host) then Some(host)
      else if Bracketed(host) && parseIP(Unbracketed(host)) then Some(Unbracketed(host))
      else None
  }

  /** A host that parses neither as an IP nor as a bracketed IP contributes nothing. */
  lemma DomainHostsDropped(raw: string, hostname: string -> Option<string>, parseIP: string -> bool)
    requires HostOf(raw, hostname).Some?
    requires !parseIP(HostOf(raw, hostname).value)
    requires !Bracketed(HostOf(raw, hostname).value) || !parseIP(Unbracketed(HostOf(raw, hostname).value))
    ensures IPOf(raw, hostname, parseIP).None?
  {
  }

  function IPExtractor(hostname: string -> Option<string>, parseIP: string -> bool): string -> Option<string>
  {
    raw => IPOf(raw, hostname, parseIP)
  }

  /** `URLExtractIPs`: every IP the inputs contribute, once each; unparsable inputs and other hosts are skipped. */
  method URLExtractIPs(urls: seq<string>, hostname: string -> Option<string>, parseIP: string -> bool) returns (ips: seq<string>)
    ensures NoDuplicates(ips)
    ensures forall x :: x in ips <==> exists i :: 0 <= i < |urls| && IPOf(urls[i], hostname, parseIP) == Some(x)
    ensures forall x :: x in ips ==> parseIP(x)
  {
    ghost var f := IPExtractor(hostname, parseIP);
    var uniqueIPs: set<string> := {};
    var i := 0;
    while i < |urls|
      invariant 0 <= i <= |urls|
      invariant uniqueIPs == Collected(urls[..i], f)
    {
      CollectedSnoc(urls[..i], urls[i], f);
      assert urls[..i + 1] == urls[..i] + [urls[i]];
      var parsableURL := urls[i];
      if !HasPrefix(Lower(parsableURL), "http://") && !HasPrefix(Lower(parsableURL), "https://") {
        parsableURL := "https://" + parsableURL;
      }
      assert parsableURL == WithScheme(urls[i]);
      var parsed := hostname(parsableURL);
      if parsed.None? || parsed.value == "" {
        i := i + 1;
        continue;
      }
      var host := parsed.value;
      if parseIP(host) {
        uniqueIPs := uniqueIPs + {host};
        i := i + 1;
        continue;
      }
      if HasPrefix(host, "[") && HasSuffix(host, "]") {
        var ipv6 := Unbracketed(host);
        if parseIP(ipv6) {
          uniqueIPs := uniqueIPs + {ipv6};
        }
      }
      i := i + 1;
    }
    assert urls[..i] == urls;
    ips := Keys(uniqueIPs);
    forall x ensures x in ips <==> exists i :: 0 <= i < |urls| && IPOf(urls[i], hostname, parseIP) == Some(x) {
      CollectedIff(urls, f, x);
    }
  }
}
