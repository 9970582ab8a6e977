/** The attack-surface value: three ordered lists of domains, IP literals or CIDR blocks, and URLs. */
module Surfaces {

  /** `pipeline.Surface`: the YAML sections `domains`, `ips` and `urls` of a scope file. */
  datatype Surface = Surface(domains: seq<string>, ips: seq<string>, urls: seq<string>)

  /** A surface with nothing in any of its three lists. */
  predicate IsEmpty(s: Surface)
  {
    |s.domains| == 0 && |s.ips| == 0 && |s.urls| == 0
  }
}
