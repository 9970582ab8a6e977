/**
  Wildcard-root detection (`dnsxFilterWildcards`) and active-domain filtering
  (`DnsxFilterActive`) of pkg/pipeline/dnsx.go. The DNS resolver is the function
  `lookup`, the random probe labels are `newLabel(n)` for the n-th probe, and the
  public-suffix lookup is `etld`.
 */
module Dnsx {
  import opened Wrappers
  import opened Seqs
  import opened Hierarchy
  import opened Sorting
  import opened Grouping
  import opened Cache

  /** The answer of one resolver query: the address list, or an error. */
  datatype LookupAnswer = Resolved(ips: seq<string>) | LookupFailed

  /** The address list the code keeps from an answer: an error becomes the empty list. */
  function Addresses(answer: LookupAnswer): (ips: seq<string>)
    ensures answer.LookupFailed? ==> ips == []
    ensures answer.Resolved? ==> ips == answer.ips
  {
    if answer.Resolved? then answer.ips else []
  }

  /** One wildcard probe: the domain under test, the name asked, the addresses seen, and whether the cache answered. */
  datatype Probe = Probe(domain: string, name: string, ips: seq<string>, cached: bool)

  /** The state of the detection loop: confirmed roots, the cache contents, and the probes made so far. */
  datatype Detection = Detection(wildcards: seq<string>, cache: map<string, seq<string>>, probes: seq<Probe>)

  /** `domain` is a strict subdomain of an already confirmed root: the `shouldSkip` search. */
  predicate UnderWildcard(domain: string, wildcards: seq<string>)
  {
    exists i :: 0 <= i < |wildcards| && IsSubdomain(domain, wildcards[i])
  }

  /** Handling one domain of a group: skip it, or probe `<label>.<domain>` through the cache. */
  function Step(st: Detection, domain: string, lookup: string -> LookupAnswer, newLabel: nat -> string): Detection
  {
    if UnderWildcard(domain, st.wildcards) then st
    else
      var name := newLabel(|st.probes|) + "." + domain;
      var cached := name in st.cache;
      var ips := if cached then st.cache[name] else Addresses(lookup(name));
      Detection(if |ips| > 0 then st.wildcards + [domain] else st.wildcards,
                if cached then st.cache else st.cache[name := ips],
                st.probes + [Probe(domain, name, ips, cached)])
  }

  /** The detection loop run over `order`, the domains in the order they are handled. */
  function Detect(order: seq<string>, init: Detection, lookup: string -> LookupAnswer, newLabel: nat -> string): Detection
  {
    if order == [] then init
    else Step(Detect(order[..|order| - 1], init, lookup, newLabel), order[|order| - 1], lookup, newLabel)
  }

  lemma DetectSnoc(order: seq<string>, domain: string, init: Detection, lookup: string -> LookupAnswer, newLabel: nat -> string)
    ensures Detect(order + [domain], init, lookup, newLabel) == Step(Detect(order, init, lookup, newLabel), domain, lookup, newLabel)
  {
    assert (order + [domain])[..|order|] == order;
  }

  /** The domains of the probes whose answer held an address, in probe order. */
  function Confirmed(probes: seq<Probe>): (r: seq<string>)
    ensures forall d :: d in r <==> exists p :: p in probes && |p.ips| > 0 && p.domain == d
  {
    if probes == [] then []
    else
      var p := probes[|probes| - 1];
      Confirmed(probes[..|probes| - 1]) + (if |p.ips| > 0 then [p.domain] else [])
  }

  /**
    The loop only ever appends: earlier roots and probes stay in place and earlier cache
    entries keep their values. Every new probe asks `<newLabel(i)>.<domain>` for a domain
    of `order`, and a probe the cache did not answer saw exactly the resolver's addresses.
   */
  lemma {:induction false} DetectGrows(order: seq<string>, init: Detection, lookup: string -> LookupAnswer, newLabel: nat -> string)
    ensures var st := Detect(order, init, lookup, newLabel);
            && |init.wildcards| <= |st.wildcards| && st.wildcards[..|init.wildcards|] == init.wildcards
            && |init.probes| <= |st.probes| <= |init.probes| + |order| && st.probes[..|init.probes|] == init.probes
            && (forall k :: k in init.cache ==> k in st.cache && st.cache[k] == init.cache[k])
            && (forall i :: |init.probes| <= i < |st.probes| ==>
                  && st.probes[i].name == newLabel(i) + "." + st.probes[i].domain
                  && st.probes[i].domain in order
                  && (!st.probes[i].cached ==> st.probes[i].ips == Addresses(lookup(st.probes[i].name))))
  {
    DetectExtends(order, init, lookup, newLabel);
    DetectKeepsCache(order, init, lookup, newLabel);
    DetectNamesProbes(order, init, lookup, newLabel);
  }

  lemma {:induction false} DetectExtends(order: seq<string>, init: Detection, lookup: string -> LookupAnswer, newLabel: nat -> string)
    ensures var st := Detect(order, init, lookup, newLabel);
            && |init.wildcards| <= |st.wildcards| && st.wildcards[..|init.wildcards|] == init.wildcards
            && |init.probes| <= |st.probes| <= |init.probes| + |order| && st.probes[..|init.probes|] == init.probes
  {
    if order != [] {
      var prefix := order[..|order| - 1];
      DetectExtends(prefix, init, lookup, newLabel);
      var prev := Detect(prefix, init, lookup, newLabel);
      var st := Detect(order, init, lookup, newLabel);
      assert st.wildcards[..|prev.wildcards|] == prev.wildcards;
      assert st.probes[..|prev.probes|] == prev.probes;
      assert st.wildcards[..|init.wildcards|] == prev.wildcards[..|init.wildcards|];
      assert st.probes[..|init.probes|] == prev.probes[..|init.probes|];
    }
  }

  /** Every entry of `before` is in `after` with the same value. */
  ghost predicate EntriesKept(before: map<string, seq<string>>, after: map<string, seq<string>>)
  {
    forall k :: k in before ==> k in after && after[k] == before[k]
  }

  lemma {:induction false} DetectKeepsCache(order: seq<string>, init: Detection, lookup: string -> LookupAnswer, newLabel: nat -> string)
    ensures EntriesKept(init.cache, Detect(order, init, lookup, newLabel).cache)
  {
    if order != [] {
      var prefix := order[..|order| - 1];
      DetectKeepsCache(prefix, init, lookup, newLabel);
      var prev := Detect(prefix, init, lookup, newLabel);
      assert EntriesKept(prev.cache, Step(prev, order[|order| - 1], lookup, newLabel).cache);
    }
  }

  /** Every probe from position `from` on asks `<newLabel(i)>.<domain>` for a domain of `order`; an uncached one saw the resolver's answer. */
  ghost predicate ProbesNamed(probes: seq<Probe>, from: nat, order: seq<string>, lookup: string -> LookupAnswer, newLabel: nat -> string)
  {
    forall i :: from <= i < |probes| ==>
      && probes[i].name == newLabel(i) + "." + probes[i].domain
      && probes[i].domain in order
      && (!probes[i].cached ==> probes[i].ips == Addresses(lookup(probes[i].name)))
  }

  lemma {:induction false} DetectNamesProbes(order: seq<string>, init: Detection, lookup: string -> LookupAnswer, newLabel: nat -> string)
    ensures ProbesNamed(Detect(order, init, lookup, newLabel).probes, |init.probes|, order, lookup, newLabel)
  {
    if order != [] {
      var prefix := order[..|order| - 1];
      DetectNamesProbes(prefix, init, lookup, newLabel);
      var prev := Detect(prefix, init, lookup, newLabel);
      var st := Detect(order, init, lookup, newLabel);
      forall i | |init.probes| <= i < |st.probes|
        ensures && st.probes[i].name == newLabel(i) + "." + st.probes[i].domain
                && st.probes[i].domain in order
                && (!st.probes[i].cached ==> st.probes[i].ips == Addresses(lookup(st.probes[i].name)))
      {
        if i < |prev.probes| {
          assert st.probes[i] == prev.probes[i];
          assert prev.probes[i].domain in prefix;
        } else {
          assert st.probes[i].domain == order[|order| - 1];
        }
      }
    }
  }

  /** A domain becomes a root exactly when its probe saw an address. */
  lemma {:induction false} DetectConfirms(order: seq<string>, init: Detection, lookup: string -> LookupAnswer, newLabel: nat -> string)
    ensures var st := Detect(order, init, lookup, newLabel);
            |init.probes| <= |st.probes| && st.wildcards == init.wildcards + Confirmed(st.probes[|init.probes|..])
  {
    if order != [] {
      var prefix := order[..|order| - 1];
      var prev := Detect(prefix, init, lookup, newLabel);
      DetectConfirms(prefix, init, lookup, newLabel);
      var domain := order[|order| - 1];
      var st := Step(prev, domain, lookup, newLabel);
      assert st == Detect(order, init, lookup, newLabel);
      if !UnderWildcard(domain, prev.wildcards) {
        var p := st.probes[|st.probes| - 1];
        var before := prev.probes[|init.probes|..];
        var added := if |p.ips| > 0 then [p.domain] else [];
        assert st.probes == prev.probes + [p];
        assert st.wildcards == prev.wildcards + added;
        assert st.probes[|init.probes|..] == before + [p];
        ConfirmedSnoc(before, p);
        assert init.wildcards + Confirmed(before) + added == init.wildcards + (Confirmed(before) + added);
      }
    }
  }

  lemma ConfirmedSnoc(probes: seq<Probe>, p: Probe)
    ensures Confirmed(probes + [p]) == Confirmed(probes) + (if |p.ips| > 0 then [p.domain] else [])
  {
    assert (probes + [p])[..|probes|] == probes;
  }

  /**
    Every cache entry after the loop was there before or belongs to a new probe, and every
    new probe's name is stored with the addresses that probe saw (an empty list included).
   */
  /** Each probe's name is cached with the addresses the probe saw. */
  ghost predicate ProbesCached(cache: map<string, seq<string>>, probes: seq<Probe>)
  {
    forall i :: 0 <= i < |probes| ==> probes[i].name in cache && cache[probes[i].name] == probes[i].ips
  }

  /** Each cache entry was in `cache0` or is the name of a probe. */
  ghost predicate CacheExplained(cache: map<string, seq<string>>, cache0: map<string, seq<string>>, probes: seq<Probe>)
  {
    forall k :: k in cache ==> k in cache0 || exists i :: 0 <= i < |probes| && probes[i].name == k
  }

  lemma {:induction false} DetectCaches(order: seq<string>, init: Detection, lookup: string -> LookupAnswer, newLabel: nat -> string)
    requires ProbesCached(init.cache, init.probes)
    ensures CacheExplained(Detect(order, init, lookup, newLabel).cache, init.cache, Detect(order, init, lookup, newLabel).probes)
    ensures ProbesCached(Detect(order, init, lookup, newLabel).cache, Detect(order, init, lookup, newLabel).probes)
  {
    if order != [] {
      var prefix := order[..|order| - 1];
      DetectCaches(prefix, init, lookup, newLabel);
      var prev := Detect(prefix, init, lookup, newLabel);
      var st := Detect(order, init, lookup, newLabel);
      if st != prev {
        forall i | 0 <= i < |st.probes| ensures st.probes[i].name in st.cache && st.cache[st.probes[i].name] == st.probes[i].ips {
          if i < |prev.probes| {
            assert st.probes[i] == prev.probes[i];
          }
        }
        forall k | k in st.cache ensures k in init.cache || exists i :: 0 <= i < |st.probes| && st.probes[i].name == k {
          if k !in prev.cache {
            assert st.probes[|st.probes| - 1].name == k;
          } else if k !in init.cache {
            var i :| 0 <= i < |prev.probes| && prev.probes[i].name == k;
            assert st.probes[i] == prev.probes[i];
          }
        }
      }
    }
  }

  /** Every handled domain was probed, or it lies under a root confirmed by the end. */
  lemma {:induction false} DetectCovers(order: seq<string>, init: Detection, lookup: string -> LookupAnswer, newLabel: nat -> string)
    ensures var st := Detect(order, init, lookup, newLabel);
            forall x :: x in order ==>
              (exists i :: |init.probes| <= i < |st.probes| && st.probes[i].domain == x) || UnderWildcard(x, st.wildcards)
  {
    if order != [] {
      var prefix, last := order[..|order| - 1], order[|order| - 1];
      assert order == prefix + [last];
      DetectCovers(prefix, init, lookup, newLabel);
      var prev := Detect(prefix, init, lookup, newLabel);
      var st := Detect(order, init, lookup, newLabel);
      DetectGrows(prefix, init, lookup, newLabel);
      assert st.probes[..|prev.probes|] == prev.probes;
      assert st.wildcards[..|prev.wildcards|] == prev.wildcards;
      forall x | x in order
        ensures (exists i :: |init.probes| <= i < |st.probes| && st.probes[i].domain == x) || UnderWildcard(x, st.wildcards)
      {
        if x == last && st != prev {
          assert st.probes[|st.probes| - 1].domain == x;
        } else if x == last {
          assert UnderWildcard(x, prev.wildcards);
        } else if exists i :: |init.probes| <= i < |prev.probes| && prev.probes[i].domain == x {
          var i :| |init.probes| <= i < |prev.probes| && prev.probes[i].domain == x;
          assert st.probes[i] == prev.probes[i];
        } else {
          var j :| 0 <= j < |prev.wildcards| && IsSubdomain(x, prev.wildcards[j]);
          assert st.wildcards[j] == prev.wildcards[j];
        }
      }
    }
  }

  /** No probe is made for a strict subdomain of a root that an earlier probe confirmed, or of an initial root. */
  lemma {:induction false} DetectSkipsBelowRoots(order: seq<string>, init: Detection, lookup: string -> LookupAnswer, newLabel: nat -> string)
    ensures var st := Detect(order, init, lookup, newLabel);
            && (forall j :: |init.probes| <= j < |st.probes| ==> !UnderWildcard(st.probes[j].domain, init.wildcards))
            && (forall i, j :: |init.probes| <= i < j < |st.probes| && |st.probes[i].ips| > 0
                  ==> !IsSubdomain(st.probes[j].domain, st.probes[i].domain))
  {
    if order != [] {
      var prefix := order[..|order| - 1];
      DetectSkipsBelowRoots(prefix, init, lookup, newLabel);
      DetectGrows(prefix, init, lookup, newLabel);
      DetectConfirms(prefix, init, lookup, newLabel);
      var prev := Detect(prefix, init, lookup, newLabel);
      var st := Detect(order, init, lookup, newLabel);
      if st != prev {
        var j := |st.probes| - 1;
        var d := st.probes[j].domain;
        assert !UnderWildcard(d, prev.wildcards);
        forall k | 0 <= k < |init.wildcards| ensures !IsSubdomain(d, init.wildcards[k]) {
          assert prev.wildcards[k] == init.wildcards[k];
        }
        forall i | |init.probes| <= i < j && |st.probes[i].ips| > 0 ensures !IsSubdomain(d, st.probes[i].domain) {
          var p := st.probes[i];
          assert p == prev.probes[i];
          assert p in prev.probes[|init.probes|..];
          assert p.domain in prev.wildcards;
        }
        forall a, b | |init.probes| <= a < b < |st.probes| && |st.probes[a].ips| > 0
          ensures !IsSubdomain(st.probes[b].domain, st.probes[a].domain)
        {
          if b < j {
            assert st.probes[a] == prev.probes[a] && st.probes[b] == prev.probes[b];
          }
        }
      }
    }
  }

  /** The handling order of `dnsxFilterWildcards`: within an eTLD+1 group, fewer dots first. */
  ghost predicate ParentsFirst(order: seq<string>, etld: string -> Option<string>)
  {
    forall i, j :: 0 <= i < j < |order| && etld(order[i]) == etld(order[j]) ==> CountDots(order[i]) <= CountDots(order[j])
  }

  /** Every root found is an initial root or one of the handled domains. */
  lemma RootsFromOrder(order: seq<string>, init: Detection, lookup: string -> LookupAnswer, newLabel: nat -> string)
    ensures forall w :: w in Detect(order, init, lookup, newLabel).wildcards ==> w in init.wildcards || w in order
  {
    var st := Detect(order, init, lookup, newLabel);
    DetectConfirms(order, init, lookup, newLabel);
    DetectGrows(order, init, lookup, newLabel);
    forall w | w in st.wildcards && w !in init.wildcards ensures w in order {
      assert w in Confirmed(st.probes[|init.probes|..]);
      var p :| p in st.probes[|init.probes|..] && |p.ips| > 0 && p.domain == w;
      var k :| 0 <= k < |st.probes[|init.probes|..]| && st.probes[|init.probes|..][k] == p;
      assert st.probes[|init.probes| + k] == p;
    }
  }

  /** A handled domain ranks no deeper than a later one of its group, so it is not its strict subdomain. */
  lemma EarlierNotBelow(order: seq<string>, etld: string -> Option<string>, v: string)
    requires order != [] && ParentsFirst(order, etld)
    requires v in order[..|order| - 1] && etld(v) == etld(order[|order| - 1])
    ensures !IsSubdomain(v, order[|order| - 1])
  {
    var oi :| 0 <= oi < |order| - 1 && order[oi] == v;
    if IsSubdomain(v, order[|order| - 1]) {
      SubdomainHasMoreDots(v, order[|order| - 1]);
    }
  }

  /** No root is a strict subdomain of another root with the same eTLD+1. */
  ghost predicate Unnested(roots: seq<string>, etld: string -> Option<string>)
  {
    forall i, j :: 0 <= i < |roots| && 0 <= j < |roots| && etld(roots[i]) == etld(roots[j]) ==> !IsSubdomain(roots[i], roots[j])
  }

  /** With parents handled first and no initial roots, no root is a strict subdomain of another root of its group. */
  lemma {:induction false} NoNestedRoots(order: seq<string>, init: Detection, lookup: string -> LookupAnswer, newLabel: nat -> string,
                                         etld: string -> Option<string>)
    requires ParentsFirst(order, etld)
    requires init.wildcards == []
    ensures Unnested(Detect(order, init, lookup, newLabel).wildcards, etld)
  {
    if order != [] {
      var prefix, last := order[..|order| - 1], order[|order| - 1];
      assert ParentsFirst(prefix, etld);
      NoNestedRoots(prefix, init, lookup, newLabel, etld);
      var prev := Detect(prefix, init, lookup, newLabel);
      var w := Detect(order, init, lookup, newLabel).wildcards;
      if w != prev.wildcards {
        assert w == prev.wildcards + [last];
        assert !UnderWildcard(last, prev.wildcards);
        RootsFromOrder(prefix, init, lookup, newLabel);
        forall k | 0 <= k < |prev.wildcards| && etld(prev.wildcards[k]) == etld(last)
          ensures !IsSubdomain(prev.wildcards[k], last)
        {
          EarlierNotBelow(order, etld, prev.wildcards[k]);
        }
        SubdomainIrreflexive(last);
        var n := |prev.wildcards|;
        forall i, j | 0 <= i < |w| && 0 <= j < |w| && etld(w[i]) == etld(w[j]) ensures !IsSubdomain(w[i], w[j]) {
          if i < n && j < n {
            assert w[i] == prev.wildcards[i] && w[j] == prev.wildcards[j];
            assert !IsSubdomain(w[i], w[j]);
          } else if i < n {
            assert w[i] == prev.wildcards[i] && w[j] == last;
            assert !IsSubdomain(prev.wildcards[i], last);
            assert !IsSubdomain(w[i], w[j]);
          } else if j < n {
            assert w[i] == last && w[j] == prev.wildcards[j];
            assert !IsSubdomain(last, prev.wildcards[j]);
            assert !IsSubdomain(w[i], w[j]);
          } else {
            assert w[i] == last && w[j] == last;
            assert !IsSubdomain(w[i], w[j]);
          }
        }
      }
    }
  }

  /**
    With a resolver that never answers with an address and a cache holding only negative
    answers, no root is found and every domain is probed.
   */
  lemma {:induction false} NoAnswersNoRoots(order: seq<string>, init: Detection, lookup: string -> LookupAnswer, newLabel: nat -> string)
    requires forall name :: Addresses(lookup(name)) == []
    requires forall k :: k in init.cache ==> init.cache[k] == []
    requires init.wildcards == []
    ensures var st := Detect(order, init, lookup, newLabel);
            && st.wildcards == []
            && |st.probes| == |init.probes| + |order|
            && forall k :: k in st.cache ==> st.cache[k] == []
  {
    if order != [] {
      NoAnswersNoRoots(order[..|order| - 1], init, lookup, newLabel);
    }
  }

  /** Every cache entry is the answer the resolver gives for that name. */
  ghost predicate CacheAgrees(cache: map<string, seq<string>>, lookup: string -> LookupAnswer)
  {
    forall k :: k in cache ==> cache[k] == Addresses(lookup(k))
  }

  /**
    A cache filled only from the same resolver stays that way, and then every probe sees
    the resolver's answer whether or not the cache answered it.
   */
  lemma {:induction false} DetectAgrees(order: seq<string>, init: Detection, lookup: string -> LookupAnswer, newLabel: nat -> string)
    requires CacheAgrees(init.cache, lookup)
    ensures var st := Detect(order, init, lookup, newLabel);
            && CacheAgrees(st.cache, lookup)
            && forall i :: |init.probes| <= i < |st.probes| ==> st.probes[i].ips == Addresses(lookup(st.probes[i].name))
  {
    if order != [] {
      var prefix := order[..|order| - 1];
      DetectAgrees(prefix, init, lookup, newLabel);
      var prev := Detect(prefix, init, lookup, newLabel);
      var st := Detect(order, init, lookup, newLabel);
      forall i | |init.probes| <= i < |st.probes| ensures st.probes[i].ips == Addresses(lookup(st.probes[i].name)) {
        if i < |prev.probes| {
          assert st.probes[i] == prev.probes[i];
        }
      }
    }
  }

  /** With a cache that agrees with the resolver, one step adds the domain exactly when it is not skipped and its probe resolves. */
  lemma StepAgrees(st: Detection, domain: string, lookup: string -> LookupAnswer, newLabel: nat -> string)
    requires CacheAgrees(st.cache, lookup)
    ensures var next := Step(st, domain, lookup, newLabel);
            && CacheAgrees(next.cache, lookup)
            && next.wildcards == if UnderWildcard(domain, st.wildcards) then st.wildcards
                                 else if |Addresses(lookup(newLabel(|st.probes|) + "." + domain))| > 0 then st.wildcards + [domain]
                                 else st.wildcards
  {
  }

  /** A root longer than `.<domain>` can only match the probe name inside its label, which then holds a dot. */
  lemma DotInProbeTag(tag: string, domain: string, root: string)
    requires IsSubdomain(tag + "." + domain, root) && |"." + root| > |domain| + 1
    ensures '.' in tag
  {
    var name, tail := tag + "." + domain, "." + root;
    var k := |name| - |tail|;
    assert name[k] == tail[0] && name[k] == tag[k];
  }

  /** A probe name `<label>.<domain>` with a dot-free label lies under `root` exactly when `domain` is `root` or lies under it. */
  lemma ProbeUnder(tag: string, domain: string, root: string)
    requires '.' !in tag
    ensures IsSubdomain(tag + "." + domain, root) <==> domain == root || IsSubdomain(domain, root)
  {
    var name, tail := tag + "." + domain, "." + root;
    if domain == root {
      assert name[|name| - |tail|..] == "." + domain;
    }
    if IsSubdomain(domain, root) {
      assert name[|name| - |tail|..] == domain[|domain| - |tail|..];
    }
    if IsSubdomain(name, root) && |tail| <= |domain| + 1 {
      if |tail| <= |domain| {
        assert name[|name| - |tail|..] == domain[|domain| - |tail|..];
      } else {
        assert name[|name| - |tail|..] == "." + domain;
        assert domain == ("." + domain)[1..] && root == tail[1..];
      }
    }
    if IsSubdomain(name, root) && |tail| > |domain| + 1 {
      DotInProbeTag(tag, domain, root);
    }
  }

  /** The resolver the wildcard test stubs in: a name resolves exactly when it lies under one of `roots`. */
  function MockLookup(roots: seq<string>): string -> LookupAnswer
  {
    name => if UnderWildcard(name, roots) then Resolved(["192.0.2.1"]) else Resolved([])
  }

  /** One step against the stub resolver, with dot-free labels: a domain that is not skipped becomes a root exactly when it is, or lies under, a stubbed root. */
  lemma MockStep(st: Detection, domain: string, roots: seq<string>, newLabel: nat -> string)
    requires CacheAgrees(st.cache, MockLookup(roots))
    requires '.' !in newLabel(|st.probes|)
    ensures var next := Step(st, domain, MockLookup(roots), newLabel);
            && CacheAgrees(next.cache, MockLookup(roots))
            && |next.probes| == |st.probes| + (if UnderWildcard(domain, st.wildcards) then 0 else 1)
            && next.wildcards == if UnderWildcard(domain, st.wildcards) then st.wildcards
                                 else if domain in roots || UnderWildcard(domain, roots) then st.wildcards + [domain]
                                 else st.wildcards
  {
    var tag := newLabel(|st.probes|);
    StepAgrees(st, domain, MockLookup(roots), newLabel);
    forall i | 0 <= i < |roots| ensures IsSubdomain(tag + "." + domain, roots[i]) <==> domain == roots[i] || IsSubdomain(domain, roots[i]) {
      ProbeUnder(tag, domain, roots[i]);
    }
  }

  /**
    The names of the basic test case, built label by label: example.com and test.com,
    a.example.com and b.example.com, the children b.a.example.com and c.a.example.com,
    and a.test.com and b.test.com.
   */
  const ExampleBase: string := "example" + "." + "com"
  const TestBase: string := "test" + "." + "com"
  const ExA: string := "a" + "." + ExampleBase
  const ExB: string := "b" + "." + ExampleBase
  const ExBA: string := "b" + "." + ExA
  const ExCA: string := "c" + "." + ExA
  const TestA: string := "a" + "." + TestBase
  const TestB: string := "b" + "." + TestBase

  /** The roots the basic test case stubs as wildcards: a.example.com and test.com. */
  const ExampleRoots: seq<string> := [ExA, TestBase]

  /** The domains of the basic test case, in input order. */
  const WildcardInput: seq<string> := [ExA, ExB, ExBA, ExCA, TestA, TestB]

  /** The roots the basic test case expects: a.example.com, a.test.com and b.test.com. */
  const ExampleFound: seq<string> := [ExA, TestA, TestB]

  /** A subdomain is longer than its parent. */
  lemma SubdomainLonger(child: string, parent: string)
    ensures IsSubdomain(child, parent) ==> |parent| < |child|
  {
  }

  lemma ExampleSubdomains()
    ensures IsSubdomain(ExBA, ExA) && IsSubdomain(ExCA, ExA)
    ensures IsSubdomain(TestA, TestBase) && IsSubdomain(TestB, TestBase)
  {
    SubdomainOfPrefixed("b", ExA);
    SubdomainOfPrefixed("c", ExA);
    SubdomainOfPrefixed("a", TestBase);
    SubdomainOfPrefixed("b", TestBase);
  }

  /** Neither example.com name lies under test.com or under a name of the test.com group. */
  lemma ExampleBaseApart(w: string)
    requires 3 < |w| < |ExampleBase|
    ensures !IsSubdomain(ExA, w) && !IsSubdomain(ExB, w)
  {
    ProbeUnder("a", ExampleBase, w);
    ProbeUnder("b", ExampleBase, w);
    ProbeUnder("example", "com", w);
    SubdomainLonger("com", w);
  }

  /** The only root relations among the probed names are the ones the stub sets up. */
  lemma ExampleNonSubdomains()
    ensures !IsSubdomain(ExB, ExA) && !IsSubdomain(ExB, TestBase) && ExB != ExA && ExB != TestBase
    ensures forall w :: w in ExampleFound ==>
              && !IsSubdomain(ExA, w) && !IsSubdomain(ExB, w) && !IsSubdomain(TestA, w) && !IsSubdomain(TestB, w)
  {
    SubdomainLonger(ExB, ExA);
    ExampleBaseApart(TestBase);
    ExampleBaseApart(TestA);
    ExampleBaseApart(TestB);
    assert ExB[0] != ExA[0];
    forall w | w in ExampleFound
      ensures !IsSubdomain(ExA, w) && !IsSubdomain(ExB, w) && !IsSubdomain(TestA, w) && !IsSubdomain(TestB, w)
    {
      SubdomainLonger(ExA, w);
      SubdomainLonger(ExB, w);
      SubdomainLonger(TestA, w);
      SubdomainLonger(TestB, w);
    }
  }

  /**
    The state after handling the domains `seen` of the basic test case against its stub:
    the cache agrees with the stub, the roots are exactly the expected names seen so far,
    and neither child of a.example.com was probed.
   */
  ghost predicate ExampleState(st: Detection, seen: seq<string>)
  {
    && CacheAgrees(st.cache, MockLookup(ExampleRoots))
    && (forall w :: w in st.wildcards <==> w in seen && w in ExampleFound)
    && (forall i :: 0 <= i < |st.probes| ==> st.probes[i].domain != ExBA && st.probes[i].domain != ExCA)
  }

  /** Handling one more domain of the basic test case keeps `ExampleState`, given that a.example.com precedes its children. */
  lemma ExampleStep(st: Detection, x: string, seen: seq<string>, newLabel: nat -> string)
    requires ExampleState(st, seen) && x in WildcardInput
    requires x == ExBA || x == ExCA ==> ExA in seen
    requires '.' !in newLabel(|st.probes|)
    ensures ExampleState(Step(st, x, MockLookup(ExampleRoots), newLabel), seen + [x])
  {
    ExampleSubdomains();
    ExampleNonSubdomains();
    MockStep(st, x, ExampleRoots, newLabel);
    if x == ExBA || x == ExCA {
      var j :| 0 <= j < |st.wildcards| && st.wildcards[j] == ExA;
      assert IsSubdomain(x, st.wildcards[j]);
    } else {
      assert x in ExampleFound || x == ExB;
      assert !UnderWildcard(x, st.wildcards);
      assert x == TestA || x == TestB ==> IsSubdomain(x, ExampleRoots[1]);
    }
  }

  /** Every prefix of a handling order that puts a.example.com before its children ends in `ExampleState`. */
  lemma {:induction false} ExampleDetect(order: seq<string>, k: nat, newLabel: nat -> string)
    requires k <= |order|
    requires forall n :: '.' !in newLabel(n)
    requires forall x :: x in order ==> x in WildcardInput
    requires forall i :: 0 <= i < |order| && (order[i] == ExBA || order[i] == ExCA) ==> ExA in order[..i]
    ensures ExampleState(Detect(order[..k], Detection([], map[], []), MockLookup(ExampleRoots), newLabel), order[..k])
  {
    if k > 0 {
      ExampleDetect(order, k - 1, newLabel);
      var prefix, last := order[..k - 1], order[k - 1];
      assert order[..k] == prefix + [last];
      assert order[..k][..k - 1] == prefix;
      ExampleStep(Detect(prefix, Detection([], map[], []), MockLookup(ExampleRoots), newLabel), last, prefix, newLabel);
    }
  }

  /** A parents-first order handles a.example.com before either of its children. */
  lemma ExampleParentsFirst(order: seq<string>, etld: string -> Option<string>, i: nat)
    requires ParentsFirst(order, etld) && ExA in order
    requires etld(ExBA) == etld(ExA) && etld(ExCA) == etld(ExA)
    requires i < |order| && (order[i] == ExBA || order[i] == ExCA)
    ensures ExA in order[..i]
  {
    ExampleSubdomains();
    SubdomainHasMoreDots(order[i], ExA);
    var j :| 0 <= j < |order| && order[j] == ExA;
    assert j < i;
    assert order[..i][j] == order[j];
  }

  /**
    The basic test case, in whichever order `FilterWildcards` may handle the domains: the
    roots are a.example.com, a.test.com and b.test.com, and b.a.example.com and
    c.a.example.com are never probed because a.example.com is found first.
   */
  lemma WildcardExample(order: seq<string>, etld: string -> Option<string>, newLabel: nat -> string)
    requires forall n :: '.' !in newLabel(n)
    requires etld(ExA) == Some(ExampleBase) && etld(ExB) == Some(ExampleBase)
    requires etld(ExBA) == Some(ExampleBase) && etld(ExCA) == Some(ExampleBase)
    requires etld(TestA) == Some(TestBase) && etld(TestB) == Some(TestBase)
    requires multiset(order) == multiset(Filter(WildcardInput, HasETLD(etld))) && ParentsFirst(order, etld)
    ensures var st := Detect(order, Detection([], map[], []), MockLookup(ExampleRoots), newLabel);
            && (forall w :: w in st.wildcards <==> w == ExA || w == TestA || w == TestB)
            && (forall p :: p in st.probes ==> p.domain != ExBA && p.domain != ExCA)
  {
    ExampleOrderFacts(order, etld);
    ExampleDetect(order, |order|, newLabel);
    assert order[..|order|] == order;
    var st := Detect(order, Detection([], map[], []), MockLookup(ExampleRoots), newLabel);
    ExampleFoundNames();
    forall p | p in st.probes ensures p.domain != ExBA && p.domain != ExCA {
      var i :| 0 <= i < |st.probes| && st.probes[i] == p;
    }
  }

  /** The expected roots, one by one, are domains of the test case. */
  lemma ExampleFoundNames()
    ensures forall w :: w in ExampleFound <==> w == ExA || w == TestA || w == TestB
    ensures forall w :: w in ExampleFound ==> w in WildcardInput
  {
  }

  /** A handling order allowed for the basic test case holds its domains, a.example.com before its children. */
  lemma ExampleOrderFacts(order: seq<string>, etld: string -> Option<string>)
    requires etld(ExA) == Some(ExampleBase) && etld(ExB) == Some(ExampleBase)
    requires etld(ExBA) == Some(ExampleBase) && etld(ExCA) == Some(ExampleBase)
    requires etld(TestA) == Some(TestBase) && etld(TestB) == Some(TestBase)
    requires multiset(order) == multiset(Filter(WildcardInput, HasETLD(etld))) && ParentsFirst(order, etld)
    ensures forall x :: x in order <==> x in WildcardInput
    ensures forall i :: 0 <= i < |order| && (order[i] == ExBA || order[i] == ExCA) ==> ExA in order[..i]
  {
    ExampleOrderElements(order, etld);
    assert ExA == WildcardInput[0];
    forall i | 0 <= i < |order| && (order[i] == ExBA || order[i] == ExCA) ensures ExA in order[..i] {
      ExampleParentsFirst(order, etld, i);
    }
  }

  /** A handling order allowed for the basic test case holds exactly its domains. */
  lemma ExampleOrderElements(order: seq<string>, etld: string -> Option<string>)
    requires forall k :: 0 <= k < |WildcardInput| ==> etld(WildcardInput[k]).Some?
    requires multiset(order) == multiset(Filter(WildcardInput, HasETLD(etld)))
    ensures forall x :: x in order <==> x in WildcardInput
  {
    FilterAll(WildcardInput, HasETLD(etld));
    forall x ensures x in order <==> x in WildcardInput {
      assert x in order <==> x in multiset(order);
      assert x in WildcardInput <==> x in multiset(WildcardInput);
    }
  }

  function HasETLD(etld: string -> Option<string>): string -> bool
  {
    x => etld(x).Some?
  }

  /** The sort key of `dnsxFilterWildcards`: fewer dots first. */
  function Depth(domain: string): int
  {
    CountDots(domain)
  }

  /** The grouping loop: names whose eTLD+1 lookup fails are skipped silently. */
  method GroupByBase(domains: seq<string>, etld: string -> Option<string>) returns (domainGroups: map<string, seq<string>>)
    ensures domainGroups == GroupBy(domains, etld)
  {
    domainGroups := map[];
    var i := 0;
    while i < |domains|
      invariant 0 <= i <= |domains|
      invariant domainGroups == GroupBy(domains[..i], etld)
    {
      var domain := domains[i];
      GroupBySnoc(domains[..i], domain, etld);
      assert domains[..i + 1] == domains[..i] + [domain];
      var baseDomain := etld(domain);
      if baseDomain.Some? {
        var key := baseDomain.value;
        domainGroups := domainGroups[key := (if key in domainGroups then domainGroups[key] else []) + [domain]];
      }
      i := i + 1;
    }
    assert domains[..i] == domains;
  }

  /** The `shouldSkip` loop: is `domain` a strict subdomain of a confirmed root? */
  method UnderConfirmedRoot(domain: string, wildcards: seq<string>) returns (shouldSkip: bool)
    ensures shouldSkip == UnderWildcard(domain, wildcards)
  {
    shouldSkip := false;
    var k := 0;
    while k < |wildcards|
      invariant 0 <= k <= |wildcards|
      invariant forall q :: 0 <= q < k ==> !IsSubdomain(domain, wildcards[q])
    {
      if IsSubdomain(domain, wildcards[k]) {
        shouldSkip := true;
        break;
      }
      k := k + 1;
    }
  }

  /**
    The body of the inner loop for one domain. `issued` counts the labels drawn so far;
    the probe list is kept for the proofs only.
   */
  method Handle(domain: string, wildcards: seq<string>, cache: DNSCache, issued: nat,
                lookup: string -> LookupAnswer, newLabel: nat -> string, ghost probes: seq<Probe>)
    returns (wildcards': seq<string>, issued': nat, ghost probes': seq<Probe>)
    requires issued == |probes|
    modifies cache
    ensures issued' == |probes'|
    ensures Detection(wildcards', cache.cache, probes') == Step(Detection(wildcards, old(cache.cache), probes), domain, lookup, newLabel)
  {
    var shouldSkip := UnderConfirmedRoot(domain, wildcards);
    if shouldSkip {
      return wildcards, issued, probes;
    }
    var testDomain := newLabel(issued) + "." + domain;
    issued' := issued + 1;
    var ips, found := cache.Get(testDomain);
    if !found {
      ips := Addresses(lookup(testDomain));
      cache.Set(testDomain, ips);
    }
    wildcards' := if |ips| > 0 then wildcards + [domain] else wildcards;
    probes' := probes + [Probe(domain, testDomain, ips, found)];
  }

  /** One group: sort it by ascending dot count, then handle its domains in that order. */
  method HandleGroup(group: seq<string>, wildcards: seq<string>, cache: DNSCache, issued: nat,
                     lookup: string -> LookupAnswer, newLabel: nat -> string,
                     ghost init: Detection, ghost order: seq<string>, ghost probes: seq<Probe>)
    returns (wildcards': seq<string>, issued': nat, ghost sorted: seq<string>, ghost probes': seq<Probe>)
    requires issued == |probes|
    requires Detection(wildcards, cache.cache, probes) == Detect(order, init, lookup, newLabel)
    modifies cache
    ensures multiset(sorted) == multiset(group) && SortedBy(sorted, Depth)
    ensures issued' == |probes'|
    ensures Detection(wildcards', cache.cache, probes') == Detect(order + sorted, init, lookup, newLabel)
  {
    var a := new string[|group|](i requires 0 <= i < |group| => group[i]);
    assert a[..] == group;
    SortByKey(a, Depth);
    sorted := a[..];
    wildcards', issued', probes' := wildcards, issued, probes;
    var m := 0;
    assert order + sorted[..0] == order;
    while m < a.Length
      modifies cache
      invariant 0 <= m <= a.Length
      invariant issued' == |probes'|
      invariant a[..] == sorted
      invariant Detection(wildcards', cache.cache, probes') == Detect(order + sorted[..m], init, lookup, newLabel)
    {
      ghost var prefix := order + sorted[..m];
      DetectSnoc(prefix, sorted[m], init, lookup, newLabel);
      assert order + sorted[..m + 1] == prefix + [sorted[m]];
      wildcards', issued', probes' := Handle(a[m], wildcards', cache, issued', lookup, newLabel, probes');
      m := m + 1;
    }
    assert sorted[..m] == sorted;
  }

  /** Appending one sorted group with a fresh key keeps parents before children in every group. */
  lemma ParentsFirstAppend(order: seq<string>, sorted: seq<string>, etld: string -> Option<string>, done: set<string>, key: string,
                            group: seq<string>)
    requires ParentsFirst(order, etld) && SortedBy(sorted, Depth)
    requires forall x :: x in order ==> etld(x).Some? && etld(x).value in done
    requires multiset(sorted) == multiset(group) && forall x :: x in group ==> etld(x) == Some(key)
    requires key !in done
    ensures ParentsFirst(order + sorted, etld)
    ensures forall x :: x in order + sorted ==> etld(x).Some? && etld(x).value in done + {key}
  {
    forall x | x in sorted ensures etld(x) == Some(key) {
      assert x in multiset(group);
    }
    var all := order + sorted;
    assert forall i, j :: 0 <= i < |order| <= j < |all| ==> etld(all[i]) != etld(all[j]) by {
      forall i, j | 0 <= i < |order| <= j < |all| ensures etld(all[i]) != etld(all[j]) {
        assert all[i] == order[i] && all[j] == sorted[j - |order|];
        assert all[i] in order && all[j] in sorted;
      }
    }
    forall i, j | 0 <= i < j < |all| && etld(all[i]) == etld(all[j]) ensures CountDots(all[i]) <= CountDots(all[j]) {
      if j < |order| {
        assert all[i] == order[i] && all[j] == order[j];
      } else if i >= |order| {
        assert all[i] == sorted[i - |order|] && all[j] == sorted[j - |order|];
      }
    }
  }

  /** `order` holds exactly the names of the groups in `done`, each group parents first. */
  ghost predicate GroupsHandled(order: seq<string>, named: seq<string>, etld: string -> Option<string>, done: set<string>)
  {
    && multiset(order) == multiset(Filter(named, InGroups(etld, done)))
    && (forall x :: x in order ==> etld(x).Some? && etld(x).value in done)
    && ParentsFirst(order, etld)
  }

  /** The loop step of `HandleGroups` on the handling order: one more group, parents still first. */
  lemma GroupsExtend(named: seq<string>, etld: string -> Option<string>, done: set<string>, key: string,
                     order: seq<string>, sorted: seq<string>, group: seq<string>)
    requires key !in done && group == Filter(named, InGroup(etld, key))
    requires GroupsHandled(order, named, etld, done)
    requires multiset(sorted) == multiset(group) && SortedBy(sorted, Depth)
    ensures GroupsHandled(order + sorted, named, etld, done + {key})
  {
    GroupsSplit(named, etld, done, key);
    ParentsFirstAppend(order, sorted, etld, done, key, group);
  }

  /** The group loop, in whatever order the keys come out. */
  method HandleGroups(domainGroups: map<string, seq<string>>, ghost named: seq<string>, cache: DNSCache,
                      lookup: string -> LookupAnswer, etld: string -> Option<string>, newLabel: nat -> string)
    returns (wildcards: seq<string>, ghost order: seq<string>, ghost probes: seq<Probe>)
    requires forall key :: key in domainGroups ==> domainGroups[key] == Filter(named, InGroup(etld, key))
    requires Filter(named, InGroups(etld, domainGroups.Keys)) == named
    modifies cache
    ensures multiset(order) == multiset(named)
    ensures ParentsFirst(order, etld)
    ensures Detection(wildcards, cache.cache, probes) == Detect(order, Detection([], old(cache.cache), []), lookup, newLabel)
  {
    ghost var init := Detection([], cache.cache, []);
    wildcards, order, probes := [], [], [];
    var issued := 0;
    var pending := domainGroups.Keys;
    ghost var keys := pending;
    ghost var done: set<string> := {};
    FilterNoneSelected(named, InGroups(etld, done));
    assert GroupsHandled(order, named, etld, done);
    while pending != {}
      invariant pending !! done && pending + done == keys
      invariant GroupsHandled(order, named, etld, done)
      invariant issued == |probes|
      invariant Detection(wildcards, cache.cache, probes) == Detect(order, init, lookup, newLabel)
      decreases pending
    {
      var key :| key in pending;
      ghost var sorted: seq<string>;
      wildcards, issued, sorted, probes := HandleGroup(domainGroups[key], wildcards, cache, issued, lookup, newLabel, init, order, probes);
      GroupsExtend(named, etld, done, key, order, sorted, domainGroups[key]);
      order := order + sorted;
      assert (pending - {key}) + (done + {key}) == pending + done;
      pending := pending - {key};
      done := done + {key};
    }
  }

  /**
    `dnsxFilterWildcards`: the domains, among those with an eTLD+1, whose random probe
    resolved, found by handling every eTLD+1 group parents first and skipping strict
    subdomains of roots already found. `order` is the handling order, `probes` the
    probes made; the cache ends up as the detection loop leaves it.
   */
  method FilterWildcards(domains: seq<string>, cache: DNSCache, lookup: string -> LookupAnswer,
                         etld: string -> Option<string>, newLabel: nat -> string)
    returns (wildcards: seq<string>, ghost order: seq<string>, ghost probes: seq<Probe>)
    modifies cache
    ensures multiset(order) == multiset(Filter(domains, HasETLD(etld)))
    ensures ParentsFirst(order, etld)
    ensures Detection(wildcards, cache.cache, probes) == Detect(order, Detection([], old(cache.cache), []), lookup, newLabel)
    ensures forall w :: w in wildcards ==> w in domains && etld(w).Some?
  {
    var domainGroups := GroupByBase(domains, etld);
    ghost var named := Filter(domains, HasETLD(etld));
    forall key | key in domainGroups ensures domainGroups[key] == Filter(named, InGroup(etld, key)) {
      GroupByIsFilter(domains, etld, key);
      FilterNarrow(domains, HasETLD(etld), InGroup(etld, key));
    }
    forall x | x in named ensures InGroups(etld, domainGroups.Keys)(x) {
      GroupByIsFilter(domains, etld, etld(x).value);
    }
    FilterAll(named, InGroups(etld, domainGroups.Keys));
    wildcards, order, probes := HandleGroups(domainGroups, named, cache, lookup, etld, newLabel);
    RootsFromOrder(order, Detection([], old(cache.cache), []), lookup, newLabel);
    forall w | w in wildcards ensures w in domains && etld(w).Some? {
      assert w in multiset(order);
      assert w in multiset(named);
    }
  }

  function CachedActive(cache0: map<string, seq<string>>): string -> bool
  {
    d => d in cache0 && |cache0[d]| > 0
  }

  function Uncached(cache0: map<string, seq<string>>): string -> bool
  {
    d => d !in cache0
  }

  function Resolves(lookup: string -> LookupAnswer): string -> bool
  {
    d => |Addresses(lookup(d))| > 0
  }

  /**
    What `DnsxFilterActive` returns: the domains the cache already knows as resolving,
    then, when a resolver could be created, the uncached domains that resolve now.
   */
  function ActiveDomains(domains: seq<string>, cache0: map<string, seq<string>>, resolverAvailable: bool,
                         lookup: string -> LookupAnswer): seq<string>
  {
    Filter(domains, CachedActive(cache0))
    + (if resolverAvailable then Filter(Filter(domains, Uncached(cache0)), Resolves(lookup)) else [])
  }

  /** The answer for each of `names`, as the resolving loop stores it. */
  function Answers(names: seq<string>, lookup: string -> LookupAnswer): map<string, seq<string>>
  {
    map d | d in names :: Addresses(lookup(d))
  }

  lemma AnswersSnoc(names: seq<string>, x: string, lookup: string -> LookupAnswer)
    ensures Answers(names + [x], lookup) == Answers(names, lookup)[x := Addresses(lookup(x))]
  {
  }

  lemma UnionUpdate(m: map<string, seq<string>>, n: map<string, seq<string>>, x: string, v: seq<string>)
    ensures m + n[x := v] == (m + n)[x := v]
  {
  }

  /** The cache after `DnsxFilterActive`: every uncached domain is stored with its answer, an empty list on failure. */
  function ActiveCache(domains: seq<string>, cache0: map<string, seq<string>>, resolverAvailable: bool,
                       lookup: string -> LookupAnswer): map<string, seq<string>>
  {
    if resolverAvailable then cache0 + Answers(Filter(domains, Uncached(cache0)), lookup)
    else cache0
  }

  /** A domain is returned exactly when the cache, after the call, holds a non-empty address list for it. */
  lemma ActiveIffCachedNonEmpty(domains: seq<string>, cache0: map<string, seq<string>>, resolverAvailable: bool,
                                lookup: string -> LookupAnswer, d: string)
    ensures var after := ActiveCache(domains, cache0, resolverAvailable, lookup);
            d in ActiveDomains(domains, cache0, resolverAvailable, lookup) <==> d in domains && d in after && |after[d]| > 0
  {
  }

  /**
    Cached names are never resolved again and keep their entry, an empty one included;
    with a resolver, every uncached domain ends up cached with its answer, and nothing
    else is added.
   */
  lemma ActiveCacheEntries(domains: seq<string>, cache0: map<string, seq<string>>, resolverAvailable: bool,
                           lookup: string -> LookupAnswer)
    ensures var after := ActiveCache(domains, cache0, resolverAvailable, lookup);
            && (forall k :: k in cache0 ==> k in after && after[k] == cache0[k])
            && (forall k :: k in after ==> k in cache0 || (resolverAvailable && k in domains))
            && (resolverAvailable ==> forall d :: d in domains && d !in cache0 ==> d in after && after[d] == Addresses(lookup(d)))
  {
  }

  /** Every returned domain is an input, and no input is returned more often than it occurs. */
  lemma ActiveFromInputs(domains: seq<string>, cache0: map<string, seq<string>>, resolverAvailable: bool,
                         lookup: string -> LookupAnswer)
    ensures multiset(ActiveDomains(domains, cache0, resolverAvailable, lookup)) <= multiset(domains)
  {
    var r := ActiveDomains(domains, cache0, resolverAvailable, lookup);
    forall x ensures multiset(r)[x] <= multiset(domains)[x] {
      FilterCount(domains, CachedActive(cache0), x);
      FilterCount(domains, Uncached(cache0), x);
      FilterCount(Filter(domains, Uncached(cache0)), Resolves(lookup), x);
    }
  }

  /** One iteration of the cache pass, on the specification side. */
  lemma SplitStep(domains: seq<string>, i: nat, c: map<string, seq<string>>)
    requires i < |domains|
    ensures var d := domains[i];
            Filter(domains[..i + 1], CachedActive(c)) == Filter(domains[..i], CachedActive(c)) + (if d in c && |c[d]| > 0 then [d] else [])
    ensures var d := domains[i];
            Filter(domains[..i + 1], Uncached(c)) == Filter(domains[..i], Uncached(c)) + (if d !in c then [d] else [])
  {
    assert domains[..i + 1] == domains[..i] + [domains[i]];
    FilterSnoc(domains[..i], domains[i], CachedActive(c));
    FilterSnoc(domains[..i], domains[i], Uncached(c));
  }

  /** The cache pass of `DnsxFilterActive`: cached non-empty answers are valid, unknown names are queued. */
  method SplitByCache(domains: seq<string>, cache: DNSCache) returns (validDomains: seq<string>, domainsToResolve: seq<string>)
    ensures validDomains == Filter(domains, CachedActive(cache.cache))
    ensures domainsToResolve == Filter(domains, Uncached(cache.cache))
  {
    ghost var c := cache.cache;
    validDomains := [];
    domainsToResolve := [];
    var i := 0;
    while i < |domains|
      invariant 0 <= i <= |domains|
      invariant cache.cache == c
      invariant validDomains == Filter(domains[..i], CachedActive(c))
      invariant domainsToResolve == Filter(domains[..i], Uncached(c))
    {
      var domain := domains[i];
      SplitStep(domains, i, c);
      var ips, found := cache.Get(domain);
      if found {
        if |ips| > 0 {
          validDomains := validDomains + [domain];
        }
      } else {
        domainsToResolve := domainsToResolve + [domain];
      }
      i := i + 1;
    }
    assert domains[..i] == domains;
  }

  /** One iteration of the resolving pass, on the specification side. */
  lemma ResolveStep(c0: map<string, seq<string>>, names: seq<string>, j: nat, lookup: string -> LookupAnswer)
    requires j < |names|
    ensures (c0 + Answers(names[..j], lookup))[names[j] := Addresses(lookup(names[j]))] == c0 + Answers(names[..j + 1], lookup)
    ensures Filter(names[..j + 1], Resolves(lookup)) == Filter(names[..j], Resolves(lookup)) + (if Resolves(lookup)(names[j]) then [names[j]] else [])
  {
    assert names[..j + 1] == names[..j] + [names[j]];
    FilterSnoc(names[..j], names[j], Resolves(lookup));
    AnswersSnoc(names[..j], names[j], lookup);
    UnionUpdate(c0, Answers(names[..j], lookup), names[j], Addresses(lookup(names[j])));
  }

  /** The resolving pass: query each queued name, cache the answer (empty on failure), keep the names that resolve. */
  method ResolveQueued(domainsToResolve: seq<string>, cache: DNSCache, lookup: string -> LookupAnswer, validDomains: seq<string>)
    returns (valid': seq<string>)
    modifies cache
    ensures valid' == validDomains + Filter(domainsToResolve, Resolves(lookup))
    ensures cache.cache == old(cache.cache) + Answers(domainsToResolve, lookup)
  {
    ghost var c0 := cache.cache;
    valid' := validDomains;
    var j := 0;
    while j < |domainsToResolve|
      invariant 0 <= j <= |domainsToResolve|
      invariant valid' == validDomains + Filter(domainsToResolve[..j], Resolves(lookup))
      invariant cache.cache == c0 + Answers(domainsToResolve[..j], lookup)
    {
      var domain := domainsToResolve[j];
      ResolveStep(c0, domainsToResolve, j, lookup);
      var answer := lookup(domain);
      if answer.LookupFailed? || |answer.ips| == 0 {
        assert Addresses(answer) == [] && !Resolves(lookup)(domain);
        cache.Set(domain, []);
        j := j + 1;
        continue;
      }
      assert Addresses(answer) == answer.ips && Resolves(lookup)(domain);
      cache.Set(domain, answer.ips);
      valid' := valid' + [domain];
      j := j + 1;
    }
    assert domainsToResolve[..j] == domainsToResolve;
  }

  /**
    `DnsxFilterActive`, with the resolver's creation reduced to `resolverAvailable` and its
    queries to `lookup`.
   */
  method FilterActive(domains: seq<string>, cache: DNSCache, resolverAvailable: bool, lookup: string -> LookupAnswer)
    returns (validDomains: seq<string>)
    modifies cache
    ensures validDomains == ActiveDomains(domains, old(cache.cache), resolverAvailable, lookup)
    ensures cache.cache == ActiveCache(domains, old(cache.cache), resolverAvailable, lookup)
  {
    var domainsToResolve;
    validDomains, domainsToResolve := SplitByCache(domains, cache);
    if |domainsToResolve| == 0 {
      assert Answers(domainsToResolve, lookup) == map[];
      assert cache.cache + map[] == cache.cache;
      return;
    }
    if !resolverAvailable {
      return;
    }
    validDomains := ResolveQueued(domainsToResolve, cache, lookup, validDomains);
  }
}
