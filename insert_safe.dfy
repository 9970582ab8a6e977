/**
  The duplicate- and exclusion-safe merge (pkg/pipeline/operator_insert_safe.go).
  Go appends to `*target` in place; here the method receives the old target and
  returns the new one.
 */
module SafeMerge {
  import opened Seqs
  import opened Surfaces
  import opened ExclusionSets

  /**
    What `insert_safe_string` leaves in the target: the source is walked in order and
    each value that is neither excluded nor already present is appended.
   */
  function Merge(target: seq<string>, source: seq<string>, excluded: string -> bool): seq<string>
  {
    if source == [] then target
    else
      var merged := Merge(target, source[..|source| - 1], excluded);
      var v := source[|source| - 1];
      if excluded(v) || v in merged then merged else merged + [v]
  }

  lemma MergeSnoc(target: seq<string>, source: seq<string>, v: string, excluded: string -> bool)
    ensures var merged := Merge(target, source, excluded);
            Merge(target, source + [v], excluded) == if excluded(v) || v in merged then merged else merged + [v]
  {
    assert (source + [v])[..|source|] == source;
  }

  /** The merge only appends: the old target is a prefix of the result, so values already there (excluded or not) stay. */
  lemma {:induction false} MergeExtends(target: seq<string>, source: seq<string>, excluded: string -> bool)
    ensures target <= Merge(target, source, excluded)
    ensures |Merge(target, source, excluded)| <= |target| + |source|
  {
    if source != [] {
      MergeExtends(target, source[..|source| - 1], excluded);
    }
  }

  /** Every appended value comes from the source, is not excluded and was not in the old target. */
  lemma {:induction false} MergeAppendsOnlyAdmissible(target: seq<string>, source: seq<string>, excluded: string -> bool)
    ensures var merged := Merge(target, source, excluded);
            forall i :: |target| <= i < |merged| ==> merged[i] in source && !excluded(merged[i]) && merged[i] !in target
  {
    MergeExtends(target, source, excluded);
    if source != [] {
      MergeAppendsOnlyAdmissible(target, source[..|source| - 1], excluded);
      MergeExtends(target, source[..|source| - 1], excluded);
    }
  }

  /** A duplicate-free target stays duplicate-free. */
  lemma {:induction false} MergeNoDuplicates(target: seq<string>, source: seq<string>, excluded: string -> bool)
    requires NoDuplicates(target)
    ensures NoDuplicates(Merge(target, source, excluded))
  {
    if source != [] {
      MergeNoDuplicates(target, source[..|source| - 1], excluded);
    }
  }

  /** Every non-excluded source value ends up in the target. */
  lemma {:induction false} MergeComplete(target: seq<string>, source: seq<string>, excluded: string -> bool)
    ensures forall v :: v in source && !excluded(v) ==> v in Merge(target, source, excluded)
  {
    if source != [] {
      var init := source[..|source| - 1];
      MergeComplete(target, init, excluded);
      assert source == init + [source[|source| - 1]];
      MergeExtends(Merge(target, init, excluded), [], excluded);
    }
  }

  /** The values `insert_safe_string` may append from `source` onto `target`. */
  function Admissible(target: seq<string>, excluded: string -> bool): string -> bool
  {
    v => !excluded(v) && v !in target
  }

  /**
    The appended part is exactly the first occurrences, in source order, of the source
    values that are not excluded and not in the old target.
   */
  lemma {:induction false} MergeAppendsFirstOccurrences(target: seq<string>, source: seq<string>, excluded: string -> bool)
    ensures Merge(target, source, excluded) == target + FirstOccurrences(Filter(source, Admissible(target, excluded)))
  {
    if source != [] {
      var init, v := source[..|source| - 1], source[|source| - 1];
      var p := Admissible(target, excluded);
      var f := Filter(init, p);
      var merged := Merge(target, init, excluded);
      MergeAppendsFirstOccurrences(target, init, excluded);
      assert merged == target + FirstOccurrences(f);
      assert source == init + [v];
      FilterSnoc(init, v, p);
      assert p(v) == (!excluded(v) && v !in target);
      assert Merge(target, source, excluded) == if excluded(v) || v in merged then merged else merged + [v];
      if p(v) {
        FirstOccurrencesSnoc(f, v);
        assert v in merged <==> v in f;
      } else {
        assert excluded(v) || v in merged;
        assert Filter(source, p) == f;
      }
    }
  }

  /** Merging the same source again, with the same predicate, leaves the target unchanged. */
  lemma MergeIdempotent(target: seq<string>, source: seq<string>, excluded: string -> bool)
    ensures Merge(Merge(target, source, excluded), source, excluded) == Merge(target, source, excluded)
  {
    var merged := Merge(target, source, excluded);
    MergeComplete(target, source, excluded);
    MergeAbsorbed(merged, source, excluded);
  }

  /** A source whose every value is excluded or already present adds nothing. */
  lemma {:induction false} MergeAbsorbed(target: seq<string>, source: seq<string>, excluded: string -> bool)
    requires forall v :: v in source ==> excluded(v) || v in target
    ensures Merge(target, source, excluded) == target
  {
    if source != [] {
      MergeAbsorbed(target, source[..|source| - 1], excluded);
    }
  }

  /** `insert_safe_string`: appends the admissible source values to the target, tracking present values in a set. */
  method InsertSafeString(source: seq<string>, checkExclusion: string -> bool, target: seq<string>)
    returns (merged: seq<string>)
    ensures merged == Merge(target, source, checkExclusion)
    ensures target <= merged
    ensures forall i :: |target| <= i < |merged| ==> merged[i] in source && !checkExclusion(merged[i]) && merged[i] !in target
    ensures forall v :: v in source && !checkExclusion(v) ==> v in merged
    ensures NoDuplicates(target) ==> NoDuplicates(merged)
  {
    var existing: set<string> := {};
    var k := 0;
    while k < |target|
      invariant 0 <= k <= |target|
      invariant forall v :: v in existing <==> v in target[..k]
    {
      assert target[..k + 1] == target[..k] + [target[k]];
      existing := existing + {target[k]};
      k := k + 1;
    }
    assert target[..k] == target;
    merged := target;
    var i := 0;
    while i < |source|
      invariant 0 <= i <= |source|
      invariant merged == Merge(target, source[..i], checkExclusion)
      invariant forall v :: v in existing <==> v in merged
    {
      var v := source[i];
      MergeSnoc(target, source[..i], v, checkExclusion);
      assert source[..i + 1] == source[..i] + [v];
      if checkExclusion(v) {
        i := i + 1;
        continue;
      }
      if v in existing {
        i := i + 1;
        continue;
      }
      merged := merged + [v];
      existing := existing + {v};
      i := i + 1;
    }
    assert source[..i] == source;
    MergeExtends(target, source, checkExclusion);
    MergeAppendsOnlyAdmissible(target, source, checkExclusion);
    MergeComplete(target, source, checkExclusion);
    if NoDuplicates(target) {
      MergeNoDuplicates(target, source, checkExclusion);
    }
  }

  /**
    `insert_safe`: merges each list of `source` into the same list of `target`, with the
    matching exclusion predicate; no list is affected by another list's data.
   */
  method InsertSafe(source: Surface, exclusions: Exclusions, target: Surface) returns (merged: Surface)
    ensures merged.domains == Merge(target.domains, source.domains, exclusions.DomainExcluded())
    ensures merged.ips == Merge(target.ips, source.ips, exclusions.IPExcluded())
    ensures merged.urls == Merge(target.urls, source.urls, exclusions.URLExcluded())
    ensures target.domains <= merged.domains && target.ips <= merged.ips && target.urls <= merged.urls
    ensures forall i :: |target.domains| <= i < |merged.domains| ==> !exclusions.ContainsDomain(merged.domains[i])
    ensures forall i :: |target.ips| <= i < |merged.ips| ==> !exclusions.ContainsIP(merged.ips[i])
    ensures forall i :: |target.urls| <= i < |merged.urls| ==> !exclusions.ContainsURL(merged.urls[i])
  {
    var domains := InsertSafeString(source.domains, exclusions.DomainExcluded(), target.domains);
    var ips := InsertSafeString(source.ips, exclusions.IPExcluded(), target.ips);
    var urls := InsertSafeString(source.urls, exclusions.URLExcluded(), target.urls);
    merged := Surface(domains, ips, urls);
  }
}
