/**
  The list operators `SelectSubdomains` (pkg/pipeline/operator_select_subdomains.go) and
  `Subtract` (pkg/pipeline/operator_subtract.go).
 */
module Operators {
  import opened Text
  import opened Seqs
  import opened Hierarchy

  /** The per-pair test of `SelectSubdomains`: the selector itself or any name below it. */
  predicate Selects(selector: string, domain: string)
  {
    domain == selector || IsSubdomain(domain, selector)
  }

  predicate SelectedBy(selectors: seq<string>, domain: string)
  {
    exists i :: 0 <= i < |selectors| && Selects(selectors[i], domain)
  }

  function SelectionOf(selectors: seq<string>): string -> bool
  {
    d => SelectedBy(selectors, d)
  }

  /** The occurrences of `domains` that some selector selects, in input order. */
  function Selected(domains: seq<string>, selectors: seq<string>): (r: seq<string>)
    ensures |r| <= |domains|
    ensures forall d :: d in r <==> d in domains && SelectedBy(selectors, d)
  {
    Filter(domains, SelectionOf(selectors))
  }

  /** A selected name keeps all its occurrences; one that no selector selects has none. */
  lemma SelectedCount(domains: seq<string>, selectors: seq<string>, d: string)
    ensures multiset(Selected(domains, selectors))[d] == if SelectedBy(selectors, d) then multiset(domains)[d] else 0
  {
    FilterCount(domains, SelectionOf(selectors), d);
  }

  /** Without selectors nothing is selected. */
  lemma SelectNothing(domains: seq<string>)
    ensures Selected(domains, []) == []
  {
    FilterNoneSelected(domains, SelectionOf([]));
  }

  /** Selecting again with the same selectors changes nothing. */
  lemma SelectIdempotent(domains: seq<string>, selectors: seq<string>)
    ensures Selected(Selected(domains, selectors), selectors) == Selected(domains, selectors)
  {
    FilterIdempotent(domains, SelectionOf(selectors));
  }

  /** The inner loop of `SelectSubdomains`: try the selectors in turn and stop at the first match. */
  method AnySelects(selectorDomains: seq<string>, domain: string) returns (found: bool)
    ensures found == SelectedBy(selectorDomains, domain)
  {
    var k := 0;
    while k < |selectorDomains|
      invariant 0 <= k <= |selectorDomains|
      invariant forall q :: 0 <= q < k ==> !Selects(selectorDomains[q], domain)
    {
      var selector := selectorDomains[k];
      if domain == selector || HasSuffix(domain, "." + selector) {
        assert Selects(selectorDomains[k], domain);
        return true;
      }
      k := k + 1;
    }
    return false;
  }

  /** `SelectSubdomains`: each domain some selector selects, in input order, duplicates kept. */
  method SelectSubdomains(domains: seq<string>, selectorDomains: seq<string>) returns (result: seq<string>)
    ensures result == Selected(domains, selectorDomains)
  {
    result := [];
    var i := 0;
    while i < |domains|
      invariant 0 <= i <= |domains|
      invariant result == Filter(domains[..i], SelectionOf(selectorDomains))
    {
      var domain := domains[i];
      FilterSnoc(domains[..i], domain, SelectionOf(selectorDomains));
      assert domains[..i + 1] == domains[..i] + [domain];
      var found := AnySelects(selectorDomains, domain);
      if found {
        result := result + [domain];
      }
      i := i + 1;
    }
    assert domains[..i] == domains;
  }

  /** The "subdomain matches" test: both google.com names are selected and nothing else. */
  lemma SelectExample()
    ensures Selected(["mail.google.com"] + ["docs.google.com"] + ["example.com"], ["google.com"])
            == ["mail.google.com"] + ["docs.google.com"]
  {
    var selectors := ["google.com"];
    var p := SelectionOf(selectors);
    assert "mail.google.com"[4..] == ".google.com";
    assert "docs.google.com"[4..] == ".google.com";
    assert p("mail.google.com") by { assert Selects(selectors[0], "mail.google.com"); }
    assert p("docs.google.com") by { assert Selects(selectors[0], "docs.google.com"); }
    assert !p("example.com");
    FilterSnoc([], "mail.google.com", p);
    assert [] + ["mail.google.com"] == ["mail.google.com"];
    FilterSnoc(["mail.google.com"], "docs.google.com", p);
    FilterSnoc(["mail.google.com"] + ["docs.google.com"], "example.com", p);
  }

  /** The names `toRemove` holds: the keys `Subtract` marks in its `removeMap`. */
  function Elements(toRemove: seq<string>): set<string>
  {
    set x | x in toRemove
  }

  function NotIn(removed: set<string>): string -> bool
  {
    x => x !in removed
  }

  /** `original` with every occurrence of a name from `toRemove` dropped, in input order. */
  function Difference(original: seq<string>, toRemove: seq<string>): (r: seq<string>)
    ensures |r| <= |original|
    ensures forall x :: x in r <==> x in original && x !in toRemove
  {
    Filter(original, NotIn(Elements(toRemove)))
  }

  /** Names that are removed vanish; every other name keeps its multiplicity. */
  lemma DifferenceCount(original: seq<string>, toRemove: seq<string>, x: string)
    ensures multiset(Difference(original, toRemove))[x] == if x in toRemove then 0 else multiset(original)[x]
  {
    FilterCount(original, NotIn(Elements(toRemove)), x);
  }

  /** Subtracting nothing gives the input back. */
  lemma DifferenceNothing(original: seq<string>)
    ensures Difference(original, []) == original
  {
    FilterAll(original, NotIn(Elements([])));
  }

  /** Subtracting the same names twice is subtracting them once. */
  lemma DifferenceTwice(original: seq<string>, toRemove: seq<string>)
    ensures Difference(Difference(original, toRemove), toRemove) == Difference(original, toRemove)
  {
    FilterIdempotent(original, NotIn(Elements(toRemove)));
  }

  /** `Subtract`: collect the names to remove, then keep the other elements in order. */
  method Subtract(original: seq<string>, toRemove: seq<string>) returns (result: seq<string>)
    ensures result == Difference(original, toRemove)
  {
    var removeMap: set<string> := {};
    var j := 0;
    while j < |toRemove|
      invariant 0 <= j <= |toRemove|
      invariant removeMap == Elements(toRemove[..j])
    {
      assert toRemove[..j + 1] == toRemove[..j] + [toRemove[j]];
      removeMap := removeMap + {toRemove[j]};
      j := j + 1;
    }
    assert toRemove[..j] == toRemove;
    result := [];
    var i := 0;
    while i < |original|
      invariant 0 <= i <= |original|
      invariant result == Filter(original[..i], NotIn(removeMap))
    {
      FilterSnoc(original[..i], original[i], NotIn(removeMap));
      assert original[..i + 1] == original[..i] + [original[i]];
      if original[i] !in removeMap {
        result := result + [original[i]];
      }
      i := i + 1;
    }
    assert original[..i] == original;
  }
}
