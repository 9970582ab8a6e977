/**
  The exclusion sets of a run (pkg/pipeline/type_exclusions.go). Domains and URLs are
  lower-cased on insertion and on every lookup; IPs are kept as the literal strings.
 */
module ExclusionSets {
  import opened Text
  import opened Surfaces

  function NormalizeDomain(domain: string): string { Lower(domain) }

  /** IPs are not normalised: no canonical form, no CIDR expansion. */
  function NormalizeIP(ip: string): string { ip }

  function NormalizeURL(url: string): string { Lower(url) }

  /** The normalised keys that inserting `xs` adds to a set. */
  function Keys(xs: seq<string>, normalize: string -> string): set<string>
  {
    set i | 0 <= i < |xs| :: normalize(xs[i])
  }

  /** One loop of `Insert`: every entry of `xs`, normalised, is added to `target`. */
  method AddAll(target: set<string>, xs: seq<string>, normalize: string -> string) returns (r: set<string>)
    ensures r == target + Keys(xs, normalize)
  {
    r := target;
    var i := 0;
    while i < |xs|
      invariant 0 <= i <= |xs|
      invariant r == target + Keys(xs[..i], normalize)
    {
      assert Keys(xs[..i + 1], normalize) == Keys(xs[..i], normalize) + {normalize(xs[i])};
      r := r + {normalize(xs[i])};
      i := i + 1;
    }
    assert xs[..i] == xs;
  }

  /** A lower-cased key was inserted exactly when some entry has the same lower-case form. */
  lemma LowerKeys(xs: seq<string>, x: string)
    ensures Lower(x) in Keys(xs, NormalizeDomain) <==> exists i :: 0 <= i < |xs| && Lower(xs[i]) == Lower(x)
    ensures Lower(x) in Keys(xs, NormalizeURL) <==> exists i :: 0 <= i < |xs| && Lower(xs[i]) == Lower(x)
  {
    if exists i :: 0 <= i < |xs| && Lower(xs[i]) == Lower(x) {
      var i :| 0 <= i < |xs| && Lower(xs[i]) == Lower(x);
      assert NormalizeDomain(xs[i]) in Keys(xs, NormalizeDomain);
      assert NormalizeURL(xs[i]) in Keys(xs, NormalizeURL);
    }
  }

  /** Without normalisation the inserted keys are the entries themselves. */
  lemma LiteralKeys(xs: seq<string>, x: string)
    ensures x in Keys(xs, NormalizeIP) <==> x in xs
  {
    if x in xs {
      var i :| 0 <= i < |xs| && xs[i] == x;
      assert NormalizeIP(xs[i]) in Keys(xs, NormalizeIP);
    }
  }

  class Exclusions {
    var domains: set<string>
    var ips: set<string>
    var urls: set<string>

    /** `MakeExclusion`: three empty sets, so nothing is excluded. */
    constructor MakeExclusion()
      ensures domains == {} && ips == {} && urls == {}
      ensures forall x :: !ContainsDomain(x) && !ContainsIP(x) && !ContainsURL(x) && !Contains(x)
    {
      domains, ips, urls := {}, {}, {};
    }

    /** `Insert`: adds every entry of `s`, normalised, to the matching set; nothing is removed. */
    method Insert(s: Surface)
      modifies this
      ensures domains == old(domains) + Keys(s.domains, NormalizeDomain)
      ensures ips == old(ips) + Keys(s.ips, NormalizeIP)
      ensures urls == old(urls) + Keys(s.urls, NormalizeURL)
      ensures forall x :: old(Contains(x)) ==> Contains(x)
      ensures forall x :: ContainsDomain(x) <==>
                old(ContainsDomain(x)) || exists i :: 0 <= i < |s.domains| && Lower(s.domains[i]) == Lower(x)
      ensures forall x :: ContainsIP(x) <==> old(ContainsIP(x)) || x in s.ips
      ensures forall x :: ContainsURL(x) <==>
                old(ContainsURL(x)) || exists i :: 0 <= i < |s.urls| && Lower(s.urls[i]) == Lower(x)
    {
      domains := AddAll(domains, s.domains, NormalizeDomain);
      ips := AddAll(ips, s.ips, NormalizeIP);
      urls := AddAll(urls, s.urls, NormalizeURL);
      forall x ensures ContainsDomain(x) <==>
          old(ContainsDomain(x)) || exists i :: 0 <= i < |s.domains| && Lower(s.domains[i]) == Lower(x)
      {
        LowerKeys(s.domains, x);
      }
      forall x ensures ContainsURL(x) <==>
          old(ContainsURL(x)) || exists i :: 0 <= i < |s.urls| && Lower(s.urls[i]) == Lower(x)
      {
        LowerKeys(s.urls, x);
      }
      forall x ensures ContainsIP(x) <==> old(ContainsIP(x)) || x in s.ips {
        LiteralKeys(s.ips, x);
      }
    }

    /** `Contains_domain`: case-insensitive membership in the domain set. */
    function ContainsDomain(domain: string): bool
      reads this
    {
      NormalizeDomain(domain) in domains
    }

    /** `Contains_ip`: exact string membership in the IP set. */
    function ContainsIP(ip: string): bool
      reads this
    {
      NormalizeIP(ip) in ips
    }

    /** `Contains_url`: case-insensitive membership in the URL set. */
    function ContainsURL(url: string): bool
      reads this
    {
      NormalizeURL(url) in urls
    }

    /** `Contains`: a string is excluded when any of the three sets holds it. */
    function Contains(s: string): (b: bool)
      reads this
      ensures b <==> ContainsDomain(s) || ContainsIP(s) || ContainsURL(s)
    {
      if ContainsDomain(s) then true
      else if ContainsIP(s) then true
      else ContainsURL(s)
    }

    /** `Contains_domain` as the predicate value that `insert_safe` passes down. */
    function DomainExcluded(): (p: string -> bool)
      reads this
      ensures forall x :: p(x) == ContainsDomain(x)
    {
      var keys := domains;
      x => NormalizeDomain(x) in keys
    }

    /** `Contains_ip` as a predicate value. */
    function IPExcluded(): (p: string -> bool)
      reads this
      ensures forall x :: p(x) == ContainsIP(x)
    {
      var keys := ips;
      x => NormalizeIP(x) in keys
    }

    /** `Contains_url` as a predicate value. */
    function URLExcluded(): (p: string -> bool)
      reads this
      ensures forall x :: p(x) == ContainsURL(x)
    {
      var keys := urls;
      x => NormalizeURL(x) in keys
    }
  }

  /** Domain and URL lookups ignore ASCII case; IP lookups do not normalise at all. */
  lemma CaseInsensitiveLookups(e: Exclusions, x: string, y: string)
    requires Lower(x) == Lower(y)
    ensures e.ContainsDomain(x) == e.ContainsDomain(y)
    ensures e.ContainsURL(x) == e.ContainsURL(y)
  {
  }

  /**
    An excluded CIDR block does not exclude an address inside it, and an excluded
    address does not exclude its block: IP exclusion is literal string matching.
   */
  method LiteralIPExclusion() returns (blockExcluded: bool, addressInBlockExcluded: bool)
    ensures blockExcluded && !addressInBlockExcluded
  {
    var e := new Exclusions.MakeExclusion();
    e.Insert(Surface([], ["10.0.0.0/8"], []));
    blockExcluded := e.ContainsIP("10.0.0.0/8");
    addressInBlockExcluded := e.ContainsIP("10.0.0.1");
  }

  /** After inserting a domain, every case variant of it is excluded as a domain, but not as an IP. */
  method CaseInsensitiveDomainExclusion(domain: string, variant: string) returns (excluded: bool, asIP: bool)
    requires Lower(variant) == Lower(domain)
    ensures excluded && !asIP
  {
    var e := new Exclusions.MakeExclusion();
    e.Insert(Surface([domain], [], []));
    assert Surface([domain], [], []).domains[0] == domain;
    excluded := e.ContainsDomain(variant);
    asIP := e.ContainsIP(variant);
  }
}
