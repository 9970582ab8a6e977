/**
  The checks `parseScope` and `validateSurface` apply to a scope file once it is read and
  parsed (pkg/configfiles/scope.go). Reading the file and decoding its YAML are not modelled:
  the decoded sections are the input.
 */
module Scope {
  import opened Wrappers
  import opened Surfaces
  import opened Validation

  /** The first failing entry of a surface, by category, with its position in that category. */
  datatype SurfaceError =
    | BadDomain(index: nat, domainCause: DomainError)
    | BadIP(index: nat, ipCause: IPError)
    | BadURL(index: nat, urlCause: URLError)

  /** Every entry passes `check`. */
  predicate AllPass<E>(xs: seq<string>, check: string -> Outcome<E>)
  {
    forall i :: 0 <= i < |xs| ==> check(xs[i]).Pass?
  }

  /** Two entries that fail while everything before each passes are the same entry. */
  lemma FirstFailIndex<E>(xs: seq<string>, check: string -> Outcome<E>, i: nat, j: nat)
    requires i < |xs| && j < |xs| && check(xs[i]).Fail? && check(xs[j]).Fail?
    requires AllPass(xs[..i], check) && AllPass(xs[..j], check)
    ensures i == j
  {
    forall k | 0 <= k < i ensures check(xs[k]).Pass? {
      assert xs[..i][k] == xs[k];
    }
    forall k | 0 <= k < j ensures check(xs[k]).Pass? {
      assert xs[..j][k] == xs[k];
    }
  }

  /** The first entry that fails its check, and why. */
  datatype Failure<E> = Failure(index: nat, cause: E)

  /** The loop `validateSurface` runs over each section: stop at the first failing entry. */
  method FirstFailure<E>(xs: seq<string>, check: string -> Outcome<E>) returns (r: Option<Failure<E>>)
    ensures r.None? <==> AllPass(xs, check)
    ensures r.Some? ==>
              && r.value.index < |xs|
              && check(xs[r.value.index]) == Fail(r.value.cause)
              && AllPass(xs[..r.value.index], check)
  {
    var i := 0;
    while i < |xs|
      invariant 0 <= i <= |xs|
      invariant AllPass(xs[..i], check)
    {
      var outcome := check(xs[i]);
      if outcome.Fail? {
        return Some(Failure(i, outcome.error));
      }
      assert xs[..i + 1] == xs[..i] + [xs[i]];
      i := i + 1;
    }
    assert xs[..i] == xs;
    return None;
  }

  function DomainCheck(): string -> Outcome<DomainError>
  {
    d => ValidateDomain(d)
  }

  function IPCheck(parseIP: string -> bool, parseCIDR: string -> bool): string -> Outcome<IPError>
  {
    ip => ValidateIP(ip, parseIP, parseCIDR)
  }

  function URLCheck(urlHost: string -> Option<string>): string -> Outcome<URLError>
  {
    u => ValidateURL(u, urlHost)
  }

  /** Every entry of every section passes its validator. */
  predicate SurfaceValid(s: Surface, parseIP: string -> bool, parseCIDR: string -> bool, urlHost: string -> Option<string>)
  {
    AllPass(s.domains, DomainCheck()) && AllPass(s.ips, IPCheck(parseIP, parseCIDR)) && AllPass(s.urls, URLCheck(urlHost))
  }

  /**
    `e` names the first failing entry of `s`: every earlier entry of its section passes,
    and every entry of the sections checked before it passes.
   */
  predicate IsFirstFailure(s: Surface, e: SurfaceError, parseIP: string -> bool, parseCIDR: string -> bool,
                           urlHost: string -> Option<string>)
  {
    match e
    case BadDomain(i, cause) =>
      && i < |s.domains|
      && ValidateDomain(s.domains[i]) == Fail(cause)
      && AllPass(s.domains[..i], DomainCheck())
    case BadIP(i, cause) =>
      && AllPass(s.domains, DomainCheck())
      && i < |s.ips|
      && ValidateIP(s.ips[i], parseIP, parseCIDR) == Fail(cause)
      && AllPass(s.ips[..i], IPCheck(parseIP, parseCIDR))
    case BadURL(i, cause) =>
      && AllPass(s.domains, DomainCheck()) && AllPass(s.ips, IPCheck(parseIP, parseCIDR))
      && i < |s.urls|
      && ValidateURL(s.urls[i], urlHost) == Fail(cause)
      && AllPass(s.urls[..i], URLCheck(urlHost))
  }

  /** The first failing entry is unique: one surface has at most one error `validateSurface` can report. */
  lemma FirstFailureUnique(s: Surface, e1: SurfaceError, e2: SurfaceError, parseIP: string -> bool, parseCIDR: string -> bool,
                           urlHost: string -> Option<string>)
    requires IsFirstFailure(s, e1, parseIP, parseCIDR, urlHost) && IsFirstFailure(s, e2, parseIP, parseCIDR, urlHost)
    ensures e1 == e2
  {
    if e1.BadDomain? && e2.BadDomain? {
      FirstFailIndex(s.domains, DomainCheck(), e1.index, e2.index);
    } else if e1.BadIP? && e2.BadIP? {
      FirstFailIndex(s.ips, IPCheck(parseIP, parseCIDR), e1.index, e2.index);
    } else if e1.BadURL? && e2.BadURL? {
      FirstFailIndex(s.urls, URLCheck(urlHost), e1.index, e2.index);
    }
  }

  /**
    `validateSurface`: the surface passes iff every entry passes; otherwise the error names
    the first failing entry, domains before IPs before URLs.
   */
  method ValidateSurface(s: Surface, parseIP: string -> bool, parseCIDR: string -> bool, urlHost: string -> Option<string>)
    returns (r: Outcome<SurfaceError>)
    ensures r.Pass? <==> SurfaceValid(s, parseIP, parseCIDR, urlHost)
    ensures r.Fail? ==> IsFirstFailure(s, r.error, parseIP, parseCIDR, urlHost)
  {
    var domainFailure := FirstFailure(s.domains, DomainCheck());
    if domainFailure.Some? {
      return Fail(BadDomain(domainFailure.value.index, domainFailure.value.cause));
    }
    var ipFailure := FirstFailure(s.ips, IPCheck(parseIP, parseCIDR));
    if ipFailure.Some? {
      return Fail(BadIP(ipFailure.value.index, ipFailure.value.cause));
    }
    var urlFailure := FirstFailure(s.urls, URLCheck(urlHost));
    if urlFailure.Some? {
      return Fail(BadURL(urlFailure.value.index, urlFailure.value.cause));
    }
    return Pass;
  }

  /** `scopeFileData`: the two sections of a scope file. */
  datatype ScopeFileData = ScopeFileData(scope: Surface, exclusions: Surface)

  /** Why a decoded scope file is refused. */
  datatype ScopeError =
    | EmptyScope
    | InScope(cause: SurfaceError)
    | InExclusions(cause: SurfaceError)

  /**
    The checks of `parseScope` after decoding: the scope section must hold something, then
    the scope section and then the exclusions section must validate. An empty exclusions
    section is accepted.
   */
  method CheckScope(config: ScopeFileData, parseIP: string -> bool, parseCIDR: string -> bool, urlHost: string -> Option<string>)
    returns (r: Result<ScopeFileData, ScopeError>)
    ensures r == Err(EmptyScope) <==> IsEmpty(config.scope)
    ensures r.Ok? <==> !IsEmpty(config.scope) && SurfaceValid(config.scope, parseIP, parseCIDR, urlHost)
                       && SurfaceValid(config.exclusions, parseIP, parseCIDR, urlHost)
    ensures r.Ok? ==> r.value == config
    ensures r.Err? && r.error.InScope? ==>
              && !SurfaceValid(config.scope, parseIP, parseCIDR, urlHost)
              && IsFirstFailure(config.scope, r.error.cause, parseIP, parseCIDR, urlHost)
    ensures r.Err? && r.error.InExclusions? ==>
              && SurfaceValid(config.scope, parseIP, parseCIDR, urlHost) && !SurfaceValid(config.exclusions, parseIP, parseCIDR, urlHost)
              && IsFirstFailure(config.exclusions, r.error.cause, parseIP, parseCIDR, urlHost)
  {
    var s := config.scope;
    if |s.domains| == 0 && |s.ips| == 0 && |s.urls| == 0 {
      return Err(EmptyScope);
    }
    var outcome := ValidateSurface(config.scope, parseIP, parseCIDR, urlHost);
    if outcome.Fail? {
      return Err(InScope(outcome.error));
    }
    outcome := ValidateSurface(config.exclusions, parseIP, parseCIDR, urlHost);
    if outcome.Fail? {
      return Err(InExclusions(outcome.error));
    }
    return Ok(config);
  }
}
