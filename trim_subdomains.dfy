/**
  `TrimSubdomains` (pkg/pipeline/operator_trim_subdomains.go): lower-case every domain,
  group the names by eTLD+1, and within each group keep only the names that have no
  strict dot-ancestor in the group. The eTLD+1 lookup (`publicsuffix.EffectiveTLDPlusOne`)
  is the partial function `etld`.
 */
module Trim {
  import opened Wrappers
  import opened Text
  import opened Seqs
  import opened Hierarchy
  import opened Sorting
  import opened Grouping

  /** The reason `TrimSubdomains` fails: a domain the public-suffix lookup rejects. */
  datatype TrimError = UnclassifiableDomain(domain: string)

  /** The input, lower-cased element by element. */
  function Lowered(domains: seq<string>): (r: seq<string>)
    ensures |r| == |domains|
    ensures forall i :: 0 <= i < |domains| ==> r[i] == Lower(domains[i])
  {
    seq(|domains|, i requires 0 <= i < |domains| => Lower(domains[i]))
  }

  /** `x` has no strict dot-ancestor in its own eTLD+1 group of `pool`. */
  ghost predicate Survives(x: string, pool: seq<string>, etld: string -> Option<string>)
  {
    forall y :: y in pool && etld(y) == etld(x) ==> !IsSubdomain(x, y)
  }

  ghost function SurvivesIn(pool: seq<string>, etld: string -> Option<string>): string -> bool
  {
    x => Survives(x, pool, etld)
  }

  /**
    The result of trimming the lower-cased names `lowered`, as a sequence: the names
    that survive, in input order. `TrimSubdomains` returns these in some order.
   */
  ghost function Trimmed(lowered: seq<string>, etld: string -> Option<string>): seq<string>
  {
    Filter(lowered, SurvivesIn(lowered, etld))
  }

  /** `x` has no strict dot-ancestor anywhere in `group`. */
  ghost function NoAncestorIn(group: seq<string>): string -> bool
  {
    x => forall y :: y in group ==> !IsSubdomain(x, y)
  }

  /** The sort key of `TrimSubdomains`: more labels sort first. */
  function DeeperFirst(domain: string): int
  {
    -(LabelCount(domain) as int)
  }

  /** After the depth-descending sort, every strict ancestor of `s[i]` sits at a larger index. */
  lemma AncestorSitsLater(s: seq<string>, i: int, j: int)
    requires SortedBy(s, DeeperFirst)
    requires 0 <= i < |s| && 0 <= j < |s|
    requires IsSubdomain(s[i], s[j])
    ensures i < j
  {
    SubdomainHasMoreDots(s[i], s[j]);
    SubdomainIrreflexive(s[i]);
  }

  /**
    The marking loop: `shouldKeep[p]` ends up false exactly when some later name in `a`
    is a strict dot-ancestor of `a[p]`.
   */
  method MarkDescendants(a: array<string>) returns (shouldKeep: array<bool>)
    ensures fresh(shouldKeep) && shouldKeep.Length == a.Length
    ensures forall p :: 0 <= p < a.Length ==> (shouldKeep[p] <==> forall q :: p < q < a.Length ==> !IsSubdomain(a[p], a[q]))
  {
    shouldKeep := new bool[a.Length](_ => true);
    var i := 0;
    while i < a.Length
      modifies shouldKeep
      invariant 0 <= i <= a.Length
      invariant forall p :: 0 <= p < i ==> (shouldKeep[p] <==> forall q :: p < q < a.Length ==> !IsSubdomain(a[p], a[q]))
      invariant forall p :: i <= p < a.Length ==> shouldKeep[p]
    {
      if shouldKeep[i] {
        ghost var before := shouldKeep[..];
        var j := i + 1;
        while j < a.Length
          modifies shouldKeep
          invariant i + 1 <= j <= a.Length
          invariant shouldKeep[..] == before
          invariant forall q :: i < q < j ==> !IsSubdomain(a[i], a[q])
        {
          if HasSuffix(a[i], "." + a[j]) {
            shouldKeep[i] := false;
            break;
          }
          j := j + 1;
        }
      }
      i := i + 1;
    }
  }

  /**
    In a deepest-first ordering of `group`, having no strict ancestor later in the
    ordering is the same as having none in the whole group.
   */
  lemma LaterAncestorsSuffice(s: seq<string>, group: seq<string>, p: int)
    requires SortedBy(s, DeeperFirst) && multiset(s) == multiset(group)
    requires 0 <= p < |s|
    ensures (forall q :: p < q < |s| ==> !IsSubdomain(s[p], s[q])) <==> NoAncestorIn(group)(s[p])
  {
    if forall q :: p < q < |s| ==> !IsSubdomain(s[p], s[q]) {
      forall y | y in group ensures !IsSubdomain(s[p], y) {
        assert y in multiset(s);
        var q :| 0 <= q < |s| && s[q] == y;
        if IsSubdomain(s[p], y) {
          AncestorSitsLater(s, p, q);
        }
      }
    } else {
      var q :| p < q < |s| && IsSubdomain(s[p], s[q]);
      assert s[q] in multiset(group);
    }
  }

  /** `kept` holds, in some order, the names of `group` that have no strict dot-ancestor in it. */
  ghost predicate KeptOf(kept: seq<string>, group: seq<string>)
  {
    multiset(kept) == multiset(Filter(group, NoAncestorIn(group)))
  }

  /** The collecting loop: the names left marked, in sorted order. */
  method CollectMarked(sorted: seq<string>, marks: seq<bool>, ghost keep: string -> bool) returns (kept: seq<string>)
    requires |marks| == |sorted|
    requires forall p :: 0 <= p < |sorted| ==> marks[p] == keep(sorted[p])
    ensures kept == Filter(sorted, keep)
  {
    kept := [];
    var m := 0;
    while m < |sorted|
      invariant 0 <= m <= |sorted|
      invariant kept == Filter(sorted[..m], keep)
    {
      FilterSnoc(sorted[..m], sorted[m], keep);
      assert sorted[..m + 1] == sorted[..m] + [sorted[m]];
      if marks[m] {
        kept := kept + [sorted[m]];
      }
      m := m + 1;
    }
    assert sorted[..m] == sorted;
  }

  /**
    The body of the group loop: sort the group deepest first, mark every name that has a
    strict ancestor later in the group, and collect the unmarked names.
   */
  method TrimGroup(group: seq<string>) returns (kept: seq<string>)
    ensures KeptOf(kept, group)
  {
    var a := new string[|group|](i requires 0 <= i < |group| => group[i]);
    assert a[..] == group;
    SortByKey(a, DeeperFirst);
    var shouldKeep := MarkDescendants(a);
    var sorted, marks := a[..], shouldKeep[..];
    ghost var keep := NoAncestorIn(group);
    forall p | 0 <= p < |sorted| ensures marks[p] == keep(sorted[p]) {
      LaterAncestorsSuffice(sorted, group, p);
    }
    kept := CollectMarked(sorted, marks, keep);
    FilterPermutation(sorted, group, keep);
  }

  /** Adding the survivors of one more group to the result of the groups already done. */
  lemma TrimGroupStep(lowered: seq<string>, etld: string -> Option<string>, done: set<string>, key: string)
    requires key !in done
    ensures var group := Filter(lowered, InGroup(etld, key));
            multiset(Filter(Trimmed(lowered, etld), InGroups(etld, done + {key})))
            == multiset(Filter(Trimmed(lowered, etld), InGroups(etld, done))) + multiset(Filter(group, NoAncestorIn(group)))
  {
    var t := Trimmed(lowered, etld);
    var group := Filter(lowered, InGroup(etld, key));
    forall x ensures multiset(Filter(t, InGroups(etld, done + {key})))[x]
                     == multiset(Filter(t, InGroups(etld, done)))[x] + multiset(Filter(group, NoAncestorIn(group)))[x]
    {
      TrimGroupCount(lowered, etld, done, key, x);
    }
  }

  /** `TrimGroupStep` for one value `x`. */
  lemma TrimGroupCount(lowered: seq<string>, etld: string -> Option<string>, done: set<string>, key: string, x: string)
    requires key !in done
    ensures var t, group := Trimmed(lowered, etld), Filter(lowered, InGroup(etld, key));
            multiset(Filter(t, InGroups(etld, done + {key})))[x]
            == multiset(Filter(t, InGroups(etld, done)))[x] + multiset(Filter(group, NoAncestorIn(group)))[x]
  {
    var t := Trimmed(lowered, etld);
    var group := Filter(lowered, InGroup(etld, key));
    FilterCount(t, InGroups(etld, done + {key}), x);
    FilterCount(t, InGroups(etld, done), x);
    FilterCount(group, NoAncestorIn(group), x);
    FilterCount(lowered, SurvivesIn(lowered, etld), x);
    FilterCount(lowered, InGroup(etld, key), x);
    if etld(x) == Some(key) {
      assert forall y :: y in group <==> y in lowered && etld(y) == etld(x);
      assert Survives(x, lowered, etld) == NoAncestorIn(group)(x);
    }
  }

  /** The first loop: lower-case each name and append it to its eTLD+1 group. */
  method GroupDomains(domains: seq<string>, etld: string -> Option<string>) returns (r: Result<map<string, seq<string>>, TrimError>)
    ensures r.Err? <==> exists i :: 0 <= i < |domains| && etld(Lower(domains[i])).None?
    ensures r.Err? ==> exists i :: 0 <= i < |domains| && r.error == UnclassifiableDomain(domains[i])
                                   && etld(Lower(domains[i])).None?
                                   && forall j :: 0 <= j < i ==> etld(Lower(domains[j])).Some?
    ensures r.Ok? ==> (forall x :: x in Lowered(domains) ==> etld(x).Some?) && r.value == GroupBy(Lowered(domains), etld)
  {
    ghost var lowered := Lowered(domains);
    var domainGroups: map<string, seq<string>> := map[];
    var i := 0;
    while i < |domains|
      invariant 0 <= i <= |domains|
      invariant forall j :: 0 <= j < i ==> etld(Lower(domains[j])).Some?
      invariant domainGroups == GroupBy(lowered[..i], etld)
    {
      var lower := Lower(domains[i]);
      var etldPlusOne := etld(lower);
      if etldPlusOne.None? {
        r := Err(UnclassifiableDomain(domains[i]));
        assert etld(Lower(domains[i])).None?;
        return;
      }
      var key := etldPlusOne.value;
      assert lowered[..i + 1] == lowered[..i] + [lower];
      GroupBySnoc(lowered[..i], lower, etld);
      domainGroups := domainGroups[key := (if key in domainGroups then domainGroups[key] else []) + [lower]];
      i := i + 1;
    }
    assert lowered[..i] == lowered;
    forall x | x in lowered ensures etld(x).Some? {
      var j :| 0 <= j < |lowered| && lowered[j] == x;
      assert etld(Lower(domains[j])).Some?;
    }
    r := Ok(domainGroups);
  }

  /** `result` holds, in some order, the survivors of the groups in `done`. */
  ghost predicate GroupsTrimmed(result: seq<string>, lowered: seq<string>, etld: string -> Option<string>, done: set<string>)
  {
    multiset(result) == multiset(Filter(Trimmed(lowered, etld), InGroups(etld, done)))
  }

  /** The loop step of `TrimAllGroups`: appending the trimmed group `key` extends the result by that group. */
  lemma AppendGroup(lowered: seq<string>, etld: string -> Option<string>, done: set<string>, key: string,
                    result: seq<string>, group: seq<string>, kept: seq<string>)
    requires key !in done
    requires GroupsTrimmed(result, lowered, etld, done)
    requires group == Filter(lowered, InGroup(etld, key))
    requires KeptOf(kept, group)
    ensures GroupsTrimmed(result + kept, lowered, etld, done + {key})
  {
    TrimGroupStep(lowered, etld, done, key);
  }

  /** Every surviving name belongs to one of the groups. */
  lemma EveryGroupCovered(lowered: seq<string>, etld: string -> Option<string>)
    requires forall x :: x in lowered ==> etld(x).Some?
    ensures Filter(Trimmed(lowered, etld), InGroups(etld, GroupBy(lowered, etld).Keys)) == Trimmed(lowered, etld)
  {
    var trimmed := Trimmed(lowered, etld);
    forall x | x in trimmed ensures InGroups(etld, GroupBy(lowered, etld).Keys)(x) {
      GroupByIsFilter(lowered, etld, etld(x).value);
    }
    FilterAll(trimmed, InGroups(etld, GroupBy(lowered, etld).Keys));
  }

  /** The second loop: trim every group, in whatever order the keys come out, and concatenate the survivors. */
  method TrimAllGroups(domainGroups: map<string, seq<string>>, ghost lowered: seq<string>, etld: string -> Option<string>)
    returns (result: seq<string>)
    requires forall key :: key in domainGroups ==> domainGroups[key] == Filter(lowered, InGroup(etld, key))
    ensures GroupsTrimmed(result, lowered, etld, domainGroups.Keys)
  {
    result := [];
    var pending := domainGroups.Keys;
    ghost var keys := pending;
    ghost var done: set<string> := {};
    FilterNoneSelected(Trimmed(lowered, etld), InGroups(etld, done));
    while pending != {}
      invariant pending !! done && pending + done == keys
      invariant GroupsTrimmed(result, lowered, etld, done)
      decreases pending
    {
      var key :| key in pending;
      var kept := TrimGroup(domainGroups[key]);
      AppendGroup(lowered, etld, done, key, result, domainGroups[key], kept);
      result := result + kept;
      assert (pending - {key}) + (done + {key}) == pending + done;
      pending := pending - {key};
      done := done + {key};
    }
    assert done == keys;
  }

  /**
    `TrimSubdomains`. Fails on the first input whose lower-cased form has no eTLD+1;
    otherwise returns, in some order, every lower-cased input that has no strict
    dot-ancestor in its eTLD+1 group (duplicates included).
   */
  method TrimSubdomains(domains: seq<string>, etld: string -> Option<string>) returns (r: Result<seq<string>, TrimError>)
    ensures |domains| == 0 ==> r == Ok([])
    ensures r.Err? <==> exists i :: 0 <= i < |domains| && etld(Lower(domains[i])).None?
    ensures r.Err? ==> exists i :: 0 <= i < |domains| && r.error == UnclassifiableDomain(domains[i])
                                   && etld(Lower(domains[i])).None?
                                   && forall j :: 0 <= j < i ==> etld(Lower(domains[j])).Some?
    ensures r.Ok? ==> multiset(r.value) == multiset(Trimmed(Lowered(domains), etld))
    ensures r.Ok? ==> forall x :: x in r.value <==> x in Lowered(domains) && Survives(x, Lowered(domains), etld)
  {
    if |domains| == 0 {
      return Ok([]);
    }
    var groups := GroupDomains(domains, etld);
    if groups.Err? {
      return Err(groups.error);
    }
    ghost var lowered := Lowered(domains);
    forall key | key in groups.value ensures groups.value[key] == Filter(lowered, InGroup(etld, key)) {
      GroupByIsFilter(lowered, etld, key);
    }
    EveryGroupCovered(lowered, etld);
    var result := TrimAllGroups(groups.value, lowered, etld);
    r := Ok(result);
    ghost var trimmed := Trimmed(lowered, etld);
    forall x ensures x in result <==> x in lowered && Survives(x, lowered, etld) {
      assert x in result <==> x in multiset(result);
      assert x in trimmed <==> x in multiset(trimmed);
    }
  }

  /**
    Trimming is idempotent on sets: feeding any ordering of a successful result back into
    `TrimSubdomains` succeeds and yields the same names.
   */
  lemma TrimTwice(domains: seq<string>, etld: string -> Option<string>, out: seq<string>)
    requires forall x :: x in Lowered(domains) ==> etld(x).Some?
    requires multiset(out) == multiset(Trimmed(Lowered(domains), etld))
    ensures forall i :: 0 <= i < |out| ==> etld(Lower(out[i])).Some?
    ensures forall x :: x in Trimmed(Lowered(out), etld) <==> x in Trimmed(Lowered(domains), etld)
  {
    var lowered := Lowered(domains);
    var trimmed := Trimmed(lowered, etld);
    assert forall x :: x in out <==> x in trimmed by {
      forall x ensures x in out <==> x in trimmed {
        assert x in out <==> x in multiset(out);
        assert x in trimmed <==> x in multiset(trimmed);
      }
    }
    assert Lowered(out) == out by {
      forall i | 0 <= i < |out| ensures Lower(out[i]) == out[i] {
        assert out[i] in lowered;
        var j :| 0 <= j < |domains| && lowered[j] == out[i];
        LowerIdempotent(domains[j]);
      }
    }
    forall x ensures x in Trimmed(out, etld) <==> x in trimmed {
      if x in trimmed {
        assert Survives(x, out, etld);
      }
    }
  }

  const ExampleParent: string := "sub.example.com"

  /** The basic test case: aa.sub.example.com, bb.sub.example.com, sub.example.com, test.com. */
  const ExampleInput: seq<string> := ["aa" + "." + ExampleParent, "bb" + "." + ExampleParent, ExampleParent, "test.com"]

  /** A concrete grouping: the first three names under example.com and the last under test.com. */
  ghost predicate ExampleGroups(etld: string -> Option<string>)
  {
    && etld(ExampleInput[0]) == Some("example.com")
    && etld(ExampleInput[1]) == Some("example.com")
    && etld(ExampleInput[2]) == Some("example.com")
    && etld(ExampleInput[3]) == Some("test.com")
  }

  lemma ExampleInputIsLowerCase()
    ensures Lowered(ExampleInput) == ExampleInput
  {
    assert IsLowerCase(ExampleParent);
    assert IsLowerCase("test.com");
    assert IsLowerCase("aa.") && IsLowerCase("bb.");
    assert "aa" + "." == "aa." && "bb" + "." == "bb.";
    LowerCaseAppend("aa.", ExampleParent);
    LowerCaseAppend("bb.", ExampleParent);
    forall i | 0 <= i < |ExampleInput| ensures Lower(ExampleInput[i]) == ExampleInput[i] {
      LowerFixesLowerCase(ExampleInput[i]);
    }
  }

  lemma ExampleSurvivors(etld: string -> Option<string>)
    requires ExampleGroups(etld)
    ensures !Survives(ExampleInput[0], ExampleInput, etld) && !Survives(ExampleInput[1], ExampleInput, etld)
    ensures Survives(ExampleInput[2], ExampleInput, etld) && Survives(ExampleInput[3], ExampleInput, etld)
  {
    SubdomainOfPrefixed("aa", ExampleParent);
    SubdomainOfPrefixed("bb", ExampleParent);
    SubdomainIrreflexive(ExampleParent);
    SubdomainIrreflexive("test.com");
    assert |ExampleInput[0]| > |ExampleParent| && |ExampleInput[1]| > |ExampleParent|;
  }

  /** Filtering four names of which the first two are rejected. */
  lemma FilterLastTwo(a: string, b: string, c: string, d: string, p: string -> bool)
    requires !p(a) && !p(b) && p(c) && p(d)
    ensures Filter([a, b, c, d], p) == [c, d]
  {
    assert [a, b, c, d][..3] == [a, b, c];
    assert [a, b, c][..2] == [a, b];
    assert [a, b][..1] == [a];
    assert Filter([a], p) == [];
    assert Filter([a, b], p) == [];
    assert Filter([a, b, c], p) == [c];
  }

  /** Two siblings under a common parent disappear; the parent and the unrelated name stay. */
  lemma TrimExample(etld: string -> Option<string>)
    requires ExampleGroups(etld)
    ensures Trimmed(Lowered(ExampleInput), etld) == ["sub.example.com", "test.com"]
  {
    var input := ExampleInput;
    ExampleInputIsLowerCase();
    ExampleSurvivors(etld);
    assert input == [input[0], input[1], input[2], input[3]];
    FilterLastTwo(input[0], input[1], input[2], input[3], SurvivesIn(input, etld));
  }
  /** The multiple-levels test case, built label by label: each name is the parent of the one before it. */
  const ChainRoot: string := "example" + "." + "com"
  const ChainSub: string := "sub" + "." + ChainRoot
  const ChainDeeper: string := "deeper" + "." + ChainSub
  const ChainDeep: string := "deep" + "." + ChainDeeper
  const ChainInput: seq<string> := [ChainDeep, ChainDeeper, ChainSub, ChainRoot]

  lemma ChainInputIsLowerCase()
    ensures Lowered(ChainInput) == ChainInput
  {
    assert IsLowerCase("example.") && IsLowerCase("com") && IsLowerCase("sub.") && IsLowerCase("deeper.") && IsLowerCase("deep.");
    assert "example" + "." == "example." && "sub" + "." == "sub." && "deeper" + "." == "deeper." && "deep" + "." == "deep.";
    LowerCaseAppend("example.", "com");
    LowerCaseAppend("sub.", ChainRoot);
    LowerCaseAppend("deeper.", ChainSub);
    LowerCaseAppend("deep.", ChainDeeper);
    forall i | 0 <= i < |ChainInput| ensures Lower(ChainInput[i]) == ChainInput[i] {
      LowerFixesLowerCase(ChainInput[i]);
    }
  }

  /** The three deeper names lie under example.com, which lies under none of them. */
  lemma ChainSurvivors(etld: string -> Option<string>)
    requires forall k :: 0 <= k < 4 ==> etld(ChainInput[k]) == Some(ChainRoot)
    ensures !Survives(ChainDeep, ChainInput, etld) && !Survives(ChainDeeper, ChainInput, etld)
    ensures !Survives(ChainSub, ChainInput, etld) && Survives(ChainRoot, ChainInput, etld)
  {
    SubdomainOfPrefixed("sub", ChainRoot);
    SubdomainOfPrefixed("deeper", ChainSub);
    SubdomainOfPrefixed("deep", ChainDeeper);
    SubdomainTransitive(ChainDeeper, ChainSub, ChainRoot);
    SubdomainTransitive(ChainDeep, ChainDeeper, ChainRoot);
    assert ChainInput[0] == ChainDeep && ChainInput[1] == ChainDeeper && ChainInput[2] == ChainSub && ChainInput[3] == ChainRoot;
    assert etld(ChainDeep) == etld(ChainRoot) && etld(ChainDeeper) == etld(ChainRoot) && etld(ChainSub) == etld(ChainRoot);
    assert |ChainRoot| < |ChainSub| < |ChainDeeper| < |ChainDeep|;
    SubdomainIrreflexive(ChainRoot);
  }

  /** Filtering four names of which only the last is accepted. */
  lemma FilterOnlyLast(a: string, b: string, c: string, d: string, p: string -> bool)
    requires !p(a) && !p(b) && !p(c) && p(d)
    ensures Filter([a, b, c, d], p) == [d]
  {
    assert [a, b, c, d][..3] == [a, b, c];
    assert [a, b, c][..2] == [a, b];
    assert [a, b][..1] == [a];
    assert Filter([a], p) == [];
    assert Filter([a, b], p) == [];
    assert Filter([a, b, c], p) == [];
  }

  /** A chain of four levels under one eTLD+1 trims to its topmost name. */
  lemma TrimChainExample(etld: string -> Option<string>)
    requires forall k :: 0 <= k < 4 ==> etld(ChainInput[k]) == Some(ChainRoot)
    ensures Trimmed(Lowered(ChainInput), etld) == [ChainRoot]
  {
    var input := ChainInput;
    ChainInputIsLowerCase();
    ChainSurvivors(etld);
    assert input == [input[0], input[1], input[2], input[3]];
    FilterOnlyLast(input[0], input[1], input[2], input[3], SurvivesIn(input, etld));
  }
}
