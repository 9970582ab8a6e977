/** Domain-name hierarchy helpers of pkg/pipeline/dnsx.go: `countDots` and `isSubdomain`. */
module Hierarchy {
  import opened Text

  /** `countDots`: the number of `.` characters (`strings.Count(domain, ".")`). */
  function CountDots(domain: string): nat
  {
    multiset(domain)['.']
  }

  /** `len(strings.Split(domain, "."))`, the label count `TrimSubdomains` sorts by. */
  function LabelCount(domain: string): nat
  {
    CountDots(domain) + 1
  }

  /** `isSubdomain`: `child` ends with `"." + parent`. */
  predicate IsSubdomain(child: string, parent: string)
  {
    HasSuffix(child, "." + parent)
  }

  /** A strict subdomain has more dots, so more labels, than its parent. */
  lemma SubdomainHasMoreDots(child: string, parent: string)
    requires IsSubdomain(child, parent)
    ensures CountDots(child) > CountDots(parent)
  {
    var k := |child| - |parent| - 1;
    assert child == child[..k] + ("." + parent);
    assert multiset(child) == multiset(child[..k]) + multiset(".") + multiset(parent);
  }

  /** Prefixing a label `tag` and a dot makes a strict subdomain. */
  lemma SubdomainOfPrefixed(tag: string, parent: string)
    ensures IsSubdomain(tag + "." + parent, parent)
  {
    assert (tag + "." + parent)[|tag|..] == "." + parent;
  }

  /** No name is a subdomain of itself. */
  lemma SubdomainIrreflexive(domain: string)
    ensures !IsSubdomain(domain, domain)
  {
  }

  /** The subdomain relation is transitive. */
  lemma SubdomainTransitive(a: string, b: string, c: string)
    requires IsSubdomain(a, b) && IsSubdomain(b, c)
    ensures IsSubdomain(a, c)
  {
    assert a[|a| - |"." + c|..] == b[|b| - |"." + c|..];
  }
}
