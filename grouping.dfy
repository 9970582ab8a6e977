/** Grouping names by their eTLD+1, the first step of both subdomain trimming and wildcard detection. */
module Grouping {
  import opened Wrappers
  import opened Seqs

  function InGroup(etld: string -> Option<string>, key: string): string -> bool
  {
    x => etld(x) == Some(key)
  }

  function InGroups(etld: string -> Option<string>, keys: set<string>): string -> bool
  {
    x => etld(x).Some? && etld(x).value in keys
  }

  /**
    The group map a loop builds by appending each name to the group of its eTLD+1, in
    input order; a name without an eTLD+1 joins no group.
   */
  function GroupBy(names: seq<string>, etld: string -> Option<string>): map<string, seq<string>>
  {
    if names == [] then map[]
    else
      var groups := GroupBy(names[..|names| - 1], etld);
      var x := names[|names| - 1];
      match etld(x)
      case None => groups
      case Some(key) => groups[key := (if key in groups then groups[key] else []) + [x]]
  }

  /** Grouping one more name appends it to the group of its eTLD+1, if it has one. */
  lemma GroupBySnoc(names: seq<string>, x: string, etld: string -> Option<string>)
    ensures etld(x).None? ==> GroupBy(names + [x], etld) == GroupBy(names, etld)
    ensures etld(x).Some? ==>
              var groups, key := GroupBy(names, etld), etld(x).value;
              GroupBy(names + [x], etld) == groups[key := (if key in groups then groups[key] else []) + [x]]
  {
    assert (names + [x])[..|names|] == names;
  }

  /** Each group holds exactly the names with that eTLD+1, in input order. */
  lemma {:induction false} GroupByIsFilter(names: seq<string>, etld: string -> Option<string>, key: string)
    ensures key in GroupBy(names, etld) <==> exists x :: x in names && etld(x) == Some(key)
    ensures key in GroupBy(names, etld) ==> GroupBy(names, etld)[key] == Filter(names, InGroup(etld, key))
  {
    if names != [] {
      var init, x := names[..|names| - 1], names[|names| - 1];
      assert names == init + [x];
      GroupByIsFilter(init, etld, key);
      FilterSnoc(init, x, InGroup(etld, key));
      if key !in GroupBy(init, etld) {
        FilterNoneSelected(init, InGroup(etld, key));
      }
    }
  }

  /** Every name lands in one of the groups. */
  lemma EveryNameGrouped(names: seq<string>, etld: string -> Option<string>)
    requires forall x :: x in names ==> etld(x).Some?
    ensures Filter(names, InGroups(etld, GroupBy(names, etld).Keys)) == names
  {
    forall x | x in names ensures InGroups(etld, GroupBy(names, etld).Keys)(x) {
      GroupByIsFilter(names, etld, etld(x).value);
    }
    FilterAll(names, InGroups(etld, GroupBy(names, etld).Keys));
  }

  /** Taking one more group adds exactly the names of that group. */
  lemma GroupsSplit(names: seq<string>, etld: string -> Option<string>, done: set<string>, key: string)
    requires key !in done
    ensures multiset(Filter(names, InGroups(etld, done + {key})))
            == multiset(Filter(names, InGroups(etld, done))) + multiset(Filter(names, InGroup(etld, key)))
  {
    forall x ensures multiset(Filter(names, InGroups(etld, done + {key})))[x]
                     == multiset(Filter(names, InGroups(etld, done)))[x] + multiset(Filter(names, InGroup(etld, key)))[x]
    {
      FilterCount(names, InGroups(etld, done + {key}), x);
      FilterCount(names, InGroups(etld, done), x);
      FilterCount(names, InGroup(etld, key), x);
    }
  }
}
