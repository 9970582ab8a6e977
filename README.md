# surface-ci core, modelled in Dafny

surface-ci keeps an inventory of an organisation's attack surface: lists of domains, IP
literals or CIDR blocks, and URLs, read from a scope file and grown by discovery tools.
This project models the deterministic core of that pipeline and proves what it does:

- **Scope files** (`pkg/configfiles/scope.go`, `pkg/validation/validation.go`): the
  emptiness check, the per-entry validation of domains, IPs and URLs, and which error is
  reported first.
- **Exclusions and merging** (`type_exclusions.go`, `operator_insert_safe.go`): the
  normalised exclusion sets and the duplicate-free, exclusion-aware append into a target
  surface.
- **List operators** (`operator_select_subdomains.go`, `operator_subtract.go`,
  `operator_trim_subdomains.go`, `operator_url_extract_domains.go`,
  `operator_url_extract_ips.go`).
- **DNS** (`dnsx.go`, `type_dnscache.go`): the answer cache, active-domain filtering and
  wildcard-root detection.

Every function the Go code calls but that is not part of the repository becomes a
parameter:
- the public-suffix lookup is `etld: string -> Option<string>` (`None` for an error);
- the resolver is `lookup: string -> LookupAnswer`;
- the n-th random probe label is `newLabel(n)`;
- `url.Parse` followed by `Hostname()` or `Host` is `hostname`/`urlHost: string -> Option<string>`;
- `net.ParseIP` and `net.ParseCIDR` are predicates;
- the success of `dnsx.New` is the boolean `resolverAvailable`.

Code that loops over arrays and maps is modelled as Dafny methods with loop invariants.
Each such method is proved against a pure specification function, and the properties
are proved about that function:
- `Merge` for the insert;
- `Detect`, a fold over the handling order, for wildcard detection;
- `Trimmed`, `Selected`, `Difference` and `Collected` for the operators.

Go's map iteration order is unspecified, so a key is picked with `:|` and results that
come out of a map are specified as sets or multisets. `sort.Slice` is an in-place
insertion sort on an `array<string>` by an integer key. The two classes whose fields the
code updates are `Cache.DNSCache` (a map field) and `ExclusionSets.Exclusions` (three set
fields).

Where the code and its comments or documented intent differ, the model follows the code:

- `insert_safe_string` never removes a value already in the target, even an excluded one (`SafeMerge.MergeExtends`).
- `dnsxFilterWildcards` does not lower-case its input, unlike `TrimSubdomains`.
- `TrimSubdomains` keeps duplicate inputs that survive: trimming compares names only against strict ancestors.
- `DnsxFilterActive` does not deduplicate. An uncached name that occurs twice is resolved twice, and is returned twice if it resolves.
- `ValidateURL` tests for `http://`/`https://` case-sensitively, while the URL extractors lower-case before the same test (`Validation.SchemeTestsDiffer`).

The worked example in the comment above `dnsxFilterWildcards` (pkg/pipeline/dnsx.go:77-98) agrees with the code. The real wildcards are `*.a.example.com` and `*.test.com`, but `test.com` is not an input, so the roots found are `a.example.com`, `a.test.com` and `b.test.com` (`Dnsx.WildcardExample`).

These definitions transcribe one Go helper each. Their own contracts, where they have one,
only restate the definition, so the lemmas and methods in the table below state their
properties:

- `Hierarchy.CountDots`: `countDots` (pkg/pipeline/dnsx.go:164-166).
- `Hierarchy.IsSubdomain`: `isSubdomain` (pkg/pipeline/dnsx.go:169-173).
- `Hierarchy.LabelCount`: `len(strings.Split(d, "."))`, the sort key of `TrimSubdomains` (pkg/pipeline/operator_trim_subdomains.go:38).
- `ExclusionSets.NormalizeDomain`, `ExclusionSets.NormalizeIP` and `ExclusionSets.NormalizeURL`: `normalize_domain`, `normalize_ip` and `normalize_url` (pkg/pipeline/type_exclusions.go:11-21).
- `ExclusionSets.Exclusions.ContainsDomain`, `ExclusionSets.Exclusions.ContainsIP` and `ExclusionSets.Exclusions.ContainsURL`: `Contains_domain`, `Contains_ip` and `Contains_url` (pkg/pipeline/type_exclusions.go:47-66).
- `ExclusionSets.Exclusions.Contains`: `Contains`, the disjunction of the three lookups (pkg/pipeline/type_exclusions.go:69-83). `MakeExclusion`, `Insert` and `CaseInsensitiveDomainExclusion` state what it answers.
- `Dnsx.Step`: the handling of one domain by `dnsxFilterWildcards`, which skips it under a known root, or else probes a random child through the cache and the resolver (pkg/pipeline/dnsx.go:123-156).
- `Dnsx.Detect`: the loop over the sorted groups, folded over one handling order (pkg/pipeline/dnsx.go:115-157).
- `UrlExtract.WithScheme`: the `https://` prefix added by the URL extractors (pkg/pipeline/operator_url_extract_domains.go:15-19).
- `UrlExtract.HostOf`: the parse-and-`Hostname()` step of `URLExtractDomains`, which keeps non-empty hosts only (pkg/pipeline/operator_url_extract_domains.go:21-31). `CollectedIff`, `IPOf` and `URLExtractDomains` state its properties.
- `Validation.Endpoint`: the `https://` prefix added by `ValidateURL` (pkg/validation/validation.go:70-73).
- `Validation.DomainFormatOk`: the domain regular expression (pkg/validation/validation.go:28-32).

## Model

| member | source | states |
|---|---|---|
| `Cache.DNSCache.NewDNSCache` | pkg/pipeline/type_dnscache.go:12-16 | a new cache holds no entry |
| `Cache.DNSCache.Get` | pkg/pipeline/type_dnscache.go:19-25 | found exactly when the name has an entry; then the stored list, an empty negative answer included, else an empty list |
| `Cache.DNSCache.Set` | pkg/pipeline/type_dnscache.go:28-32 | the entry for the name is overwritten and no other entry changes |
| `Cache.FreshCacheMisses` | pkg/pipeline/type_dnscache.go:12-25 | a fresh cache reports every name as not found |
| `Cache.SetThenGet` | pkg/pipeline/type_dnscache.go:19-32 | after `Set(d, ips)`, `Get(d)` finds `ips` even when it is empty, and `Get(k)` for another name answers as before |
| `Cache.LastSetWins` | pkg/pipeline/type_dnscache.go:28-32 | the last `Set` on a name decides its entry, and repeating a `Set` changes nothing |
| `ExclusionSets.AddAll` | pkg/pipeline/type_exclusions.go:33-45 | one insertion loop adds exactly the normalised entries to the set and keeps what was there |
| `ExclusionSets.LowerKeys` | pkg/pipeline/type_exclusions.go:11-21 | a lower-cased key is present exactly when some inserted entry has the same lower-case form |
| `ExclusionSets.LiteralKeys` | pkg/pipeline/type_exclusions.go:15-17 | IP keys are the inserted strings themselves |
| `ExclusionSets.Exclusions.MakeExclusion` | pkg/pipeline/type_exclusions.go:24-30 | three empty sets: no string is excluded by any lookup |
| `ExclusionSets.Exclusions.Insert` | pkg/pipeline/type_exclusions.go:33-45 | each set grows by its normalised entries and loses nothing; afterwards a domain or URL is excluded iff it was before or matches an inserted entry ignoring case, and an IP iff it was before or was inserted literally |
| `ExclusionSets.CaseInsensitiveLookups` | pkg/pipeline/type_exclusions.go:48-66 | two strings with the same lower-case form get the same domain and URL answers |
| `ExclusionSets.LiteralIPExclusion` | pkg/pipeline/type_exclusions.go:57-60 | an excluded CIDR block does not exclude an address inside it |
| `ExclusionSets.CaseInsensitiveDomainExclusion` | pkg/pipeline/type_exclusions.go:33-54 | after inserting a domain, every case variant of it is excluded as a domain but not as an IP |
| `SafeMerge.MergeExtends` | pkg/pipeline/operator_insert_safe.go:6-29 | the old target is a prefix of the result, which grows by at most the source's length |
| `SafeMerge.MergeAppendsOnlyAdmissible` | pkg/pipeline/operator_insert_safe.go:14-28 | every appended value is from the source, is not excluded, and was not in the old target |
| `SafeMerge.MergeNoDuplicates` | pkg/pipeline/operator_insert_safe.go:20-27 | a duplicate-free target stays duplicate-free |
| `SafeMerge.MergeComplete` | pkg/pipeline/operator_insert_safe.go:14-28 | every non-excluded source value ends up in the target |
| `SafeMerge.MergeAppendsFirstOccurrences` | pkg/pipeline/operator_insert_safe.go:6-29 | the result is the target followed by the first occurrences, in source order, of the admissible source values |
| `SafeMerge.MergeIdempotent` | pkg/pipeline/operator_insert_safe.go:6-29 | merging the same source a second time changes nothing |
| `SafeMerge.MergeAbsorbed` | pkg/pipeline/operator_insert_safe.go:14-28 | a source whose values are all excluded or present leaves the target unchanged |
| `SafeMerge.InsertSafeString` | pkg/pipeline/operator_insert_safe.go:6-29 | the loop with its `existing` set computes `Merge`: the old target prefixed, only admissible values appended, every non-excluded source value present, duplicate freedom kept |
| `SafeMerge.InsertSafe` | pkg/pipeline/operator_insert_safe.go:34-43 | each list is merged with its own exclusion lookup; old entries stay and no new entry is excluded |
| `Hierarchy.SubdomainHasMoreDots` | pkg/pipeline/dnsx.go:164-173 | a strict subdomain has more dots than its parent |
| `Hierarchy.SubdomainIrreflexive` | pkg/pipeline/dnsx.go:169-173 | no name is a subdomain of itself |
| `Hierarchy.SubdomainTransitive` | pkg/pipeline/dnsx.go:169-173 | a subdomain of a subdomain is a subdomain |
| `Sorting.SortByKey` | pkg/pipeline/operator_trim_subdomains.go:37-39 | the array ends up sorted ascending by the key and is a permutation of its old contents |
| `Grouping.GroupByIsFilter` | pkg/pipeline/dnsx.go:107-113 | a group exists exactly for the eTLD+1 of some name, and holds exactly the names with that eTLD+1, in input order |
| `Grouping.EveryNameGrouped` | pkg/pipeline/operator_trim_subdomains.go:22-30 | when every name has an eTLD+1, every name is in one of the groups |
| `Trim.AncestorSitsLater` | pkg/pipeline/operator_trim_subdomains.go:37-39 | after the deepest-first sort, every strict ancestor of a name sits after it |
| `Trim.MarkDescendants` | pkg/pipeline/operator_trim_subdomains.go:41-60 | a name stays marked exactly when no later name in the sorted group is its strict dot-ancestor |
| `Trim.LaterAncestorsSuffice` | pkg/pipeline/operator_trim_subdomains.go:37-60 | in a deepest-first order, having no later ancestor is the same as having none in the group |
| `Trim.CollectMarked` | pkg/pipeline/operator_trim_subdomains.go:62-67 | collects exactly the marked names, in sorted order |
| `Trim.TrimGroup` | pkg/pipeline/operator_trim_subdomains.go:35-67 | returns, in some order, the names of the group that have no strict ancestor in it |
| `Trim.TrimGroupStep` | pkg/pipeline/operator_trim_subdomains.go:32-68 | trimming one more group adds exactly that group's survivors to the result |
| `Trim.GroupDomains` | pkg/pipeline/operator_trim_subdomains.go:19-30 | fails exactly when some lower-cased name has no eTLD+1, reporting the first such input; otherwise returns the lower-cased names grouped by eTLD+1 |
| `Trim.EveryGroupCovered` | pkg/pipeline/operator_trim_subdomains.go:32-68 | each surviving name belongs to one of the groups the loop visits |
| `Trim.TrimAllGroups` | pkg/pipeline/operator_trim_subdomains.go:32-68 | visiting the groups in any key order yields the survivors of all of them |
| `Trim.TrimSubdomains` | pkg/pipeline/operator_trim_subdomains.go:14-71 | empty input gives an empty result. It fails exactly when some lower-cased input lacks an eTLD+1, naming the first. Otherwise it returns, as a multiset, the lower-cased inputs with no strict ancestor in their group |
| `Trim.TrimTwice` | pkg/pipeline/operator_trim_subdomains.go:14-71 | feeding any ordering of a result back in succeeds and yields the same names |
| `Trim.TrimExample` | pkg/pipeline/operator_trim_subdomains_test.go:17-20 | the two siblings under sub.example.com are dropped; sub.example.com and test.com remain |
| `Trim.TrimChainExample` | pkg/pipeline/operator_trim_subdomains_test.go:41-44 | a chain of four levels under example.com trims to example.com alone |
| `Dnsx.Confirmed` | pkg/pipeline/dnsx.go:152-156 | the confirmed names are exactly the domains of probes whose answer held an address |
| `Dnsx.DetectGrows` | pkg/pipeline/dnsx.go:115-158 | detection only appends roots and probes and keeps cache entries; the n-th probe asks `<newLabel(n)>.<domain>` for a handled domain, and an uncached probe saw the resolver's answer |
| `Dnsx.DetectConfirms` | pkg/pipeline/dnsx.go:152-156 | the roots are the initial ones followed by the domains of the probes that resolved, in probe order |
| `Dnsx.DetectCaches` | pkg/pipeline/dnsx.go:141-150 | every probe name is cached with the addresses that probe saw, an empty list included, and every new cache entry is a probe name |
| `Dnsx.DetectCovers` | pkg/pipeline/dnsx.go:122-157 | every handled domain was probed or lies under a root found by the end |
| `Dnsx.DetectSkipsBelowRoots` | pkg/pipeline/dnsx.go:124-135 | no probe is made for a strict subdomain of an initial root or of a root an earlier probe confirmed |
| `Dnsx.RootsFromOrder` | pkg/pipeline/dnsx.go:152-156 | every root is an initial root or a handled domain |
| `Dnsx.NoNestedRoots` | pkg/pipeline/dnsx.go:115-158 | with parents handled first, no root is a strict subdomain of another root of its group |
| `Dnsx.NoAnswersNoRoots` | pkg/pipeline/dnsx.go:141-156 | when nothing resolves, no root is found, every domain is probed once and every cache entry is empty |
| `Dnsx.DetectAgrees` | pkg/pipeline/dnsx.go:141-150 | a cache that agrees with the resolver keeps agreeing, and every probe saw the resolver's answer |
| `Dnsx.MockStep` | pkg/pipeline/dnsx_filterwildcards_test.go:247-258 | against the test's stub resolver, a domain not skipped becomes a root exactly when it is or lies under a stubbed root |
| `Dnsx.WildcardExample` | pkg/pipeline/dnsx_filterwildcards_test.go:17-36 | for every parents-first handling order of the test's domains, the roots found are exactly a.example.com, a.test.com and b.test.com, and b.a.example.com and c.a.example.com are never probed |
| `Dnsx.GroupByBase` | pkg/pipeline/dnsx.go:102-113 | the grouping loop computes `GroupBy`, skipping names without an eTLD+1 |
| `Dnsx.UnderConfirmedRoot` | pkg/pipeline/dnsx.go:124-131 | the skip flag is set exactly when the domain lies under a root found so far |
| `Dnsx.Handle` | pkg/pipeline/dnsx.go:123-157 | one domain's iteration is one detection step, on the roots, the cache contents and the probe count |
| `Dnsx.HandleGroup` | pkg/pipeline/dnsx.go:116-157 | the group is sorted by ascending dot count and handled in that order, extending the detection fold |
| `Dnsx.HandleGroups` | pkg/pipeline/dnsx.go:115-158 | whatever the key order, every named domain is handled once, parents before children within each group, and the state is the detection fold over that order |
| `Dnsx.FilterWildcards` | pkg/pipeline/dnsx.go:100-161 | the roots are the detection fold over a parents-first order of the domains that have an eTLD+1; every root is such an input |
| `Dnsx.ActiveIffCachedNonEmpty` | pkg/pipeline/dnsx.go:19-62 | a domain is returned exactly when the cache afterwards holds a non-empty list for it |
| `Dnsx.ActiveCacheEntries` | pkg/pipeline/dnsx.go:46-59 | cached names keep their entry; with a resolver every uncached domain is stored with its answer; nothing else is added |
| `Dnsx.ActiveFromInputs` | pkg/pipeline/dnsx.go:19-62 | no domain is returned more often than it occurs in the input |
| `Dnsx.SplitByCache` | pkg/pipeline/dnsx.go:20-33 | cached names with addresses are valid, unknown names are queued, and names cached as empty are dropped, in input order |
| `Dnsx.ResolveQueued` | pkg/pipeline/dnsx.go:46-59 | queued names that resolve are appended to the valid list; every queued name is cached with its answer, empty on failure |
| `Dnsx.FilterActive` | pkg/pipeline/dnsx.go:19-62 | the result is the cached-active names followed, when a resolver exists, by the uncached names that resolve; the cache ends as `ActiveCache` |
| `Operators.Selected` | pkg/pipeline/operator_select_subdomains.go:9-24 | a name is in the result exactly when it is an input that equals, or lies under, some selector |
| `Operators.SelectedCount` | pkg/pipeline/operator_select_subdomains.go:12-21 | a selected name keeps all its occurrences, an unselected one has none |
| `Operators.SelectNothing` | pkg/pipeline/operator_select_subdomains.go:9-24 | with no selectors nothing is selected |
| `Operators.SelectIdempotent` | pkg/pipeline/operator_select_subdomains.go:9-24 | selecting again with the same selectors changes nothing |
| `Operators.AnySelects` | pkg/pipeline/operator_select_subdomains.go:13-20 | the inner loop finds a match exactly when some selector selects the name |
| `Operators.SelectSubdomains` | pkg/pipeline/operator_select_subdomains.go:9-24 | the two loops compute `Selected`: selected names in input order, duplicates kept |
| `Operators.SelectExample` | pkg/pipeline/operator_select_subdomains_test.go:31-34 | mail.google.com and docs.google.com are selected by google.com, example.com is not |
| `Operators.Difference` | pkg/pipeline/operator_subtract.go:3-21 | a name is in the result exactly when it is in the original and not in the removal list |
| `Operators.DifferenceCount` | pkg/pipeline/operator_subtract.go:14-18 | removed names vanish and every other name keeps its multiplicity |
| `Operators.DifferenceNothing` | pkg/pipeline/operator_subtract.go:3-21 | subtracting nothing gives the input back |
| `Operators.DifferenceTwice` | pkg/pipeline/operator_subtract.go:3-21 | subtracting the same names twice is subtracting them once |
| `Operators.Subtract` | pkg/pipeline/operator_subtract.go:3-21 | the map-building and filtering loops compute `Difference` |
| `UrlExtract.WithSchemeAddsPrefix` | pkg/pipeline/operator_url_extract_domains.go:14-19 | `https://` is prepended exactly when neither scheme prefix is present ignoring case, and the result always has one |
| `UrlExtract.WithSchemeIdempotent` | pkg/pipeline/operator_url_extract_domains.go:14-19 | adding the scheme twice is adding it once |
| `UrlExtract.CollectedIff` | pkg/pipeline/operator_url_extract_domains.go:11-34 | the collected set holds exactly the values extracted from some input |
| `UrlExtract.Keys` | pkg/pipeline/operator_url_extract_domains.go:36-40 | the map keys come out once each, all of them |
| `UrlExtract.URLExtractDomains` | pkg/pipeline/operator_url_extract_domains.go:9-43 | no duplicates, and a host is returned exactly when some input URL yields it |
| `UrlExtract.Unbracketed` | pkg/pipeline/operator_url_extract_ips.go:47-52 | stripping the brackets leaves the inner text, and bracketing it gives the host back |
| `UrlExtract.IPOf` | pkg/pipeline/operator_url_extract_ips.go:14-52 | an extracted IP parses, and is the host itself or the inside of a bracketed host |
| `UrlExtract.DomainHostsDropped` | pkg/pipeline/operator_url_extract_ips.go:37-52 | a host that is not an IP, bracketed or not, contributes nothing |
| `UrlExtract.URLExtractIPs` | pkg/pipeline/operator_url_extract_ips.go:10-62 | no duplicates, every result parses as an IP, and an IP is returned exactly when some input URL yields it |
| `Validation.DomainFormatMatches` | pkg/validation/validation.go:28-32 | the character scan accepts exactly the strings matching `^[a-zA-Z0-9-]+\.[a-zA-Z0-9-.]+$` |
| `Validation.PatternExcludesScheme` | pkg/validation/validation.go:24-32 | a string matching the pattern never contains `://` |
| `Validation.ValidateDomain` | pkg/validation/validation.go:11-35 | the empty error is reported exactly for "". The domain passes exactly when it is non-empty and its trimmed form has at most 253 characters and matches the pattern. The errors come in the code's order, each exactly when the earlier checks pass: too long, then contains `://`, then bad format. Every other error carries the trimmed form. A passing domain has a dot and at least 3 characters |
| `Validation.ExampleDomainPasses` | pkg/configfiles/scope_test.go:46-55 | example.com passes |
| `Validation.HyphenatedDomainPasses` | pkg/configfiles/scope_test.go:46-55 | test-domain.org passes |
| `Validation.BlankDomainIsBadFormat` | pkg/validation/validation.go:11-32 | a non-empty all-space input passes the emptiness test and fails the pattern test with "" |
| `Validation.URLIsRefusedAsScheme` | pkg/validation/validation.go:24-26 | a short `https://` URL fails with the scheme error, not the pattern error |
| `Validation.ValidateIP` | pkg/validation/validation.go:37-60 | the empty error is reported exactly for "". A trimmed input with `/` passes iff it parses as CIDR; otherwise it passes iff it parses as an address. The error names the trimmed input |
| `Validation.CIDRIgnoresAddressParser` | pkg/validation/validation.go:45-52 | an input with `/` is judged by the CIDR parser alone |
| `Validation.AddressIgnoresCIDRParser` | pkg/validation/validation.go:54-57 | an input without `/` is judged by the address parser alone |
| `Validation.EndpointAddsScheme` | pkg/validation/validation.go:70-73 | `https://` is prepended exactly when no exact-case scheme is present; the result has one; doing it twice is doing it once |
| `Validation.SchemeTestsDiffer` | pkg/validation/validation.go:70-73 | an upper-case `HTTP://` gets a second scheme here but none in the URL extractors |
| `Validation.ValidateURL` | pkg/validation/validation.go:62-87 | the empty error is reported exactly for "". It passes exactly when the trimmed endpoint, with a scheme added if needed, parses to a non-empty host. The unparsable error is reported exactly when that endpoint does not parse, and the missing-host error exactly when it parses to an empty host. Every other error names that endpoint |
| `Scope.FirstFailure` | pkg/configfiles/scope.go:59-64 | none exactly when all entries pass; otherwise the index of the first failing entry and its error |
| `Scope.ValidateSurface` | pkg/configfiles/scope.go:57-81 | passes exactly when every entry of each list passes. Otherwise the error is the first failure: domains are checked first, then IPs, then URLs, and the error names the failing entry's index and cause, with every earlier entry passing |
| `Scope.FirstFailureUnique` | pkg/configfiles/scope.go:57-81 | one surface has at most one first failure, so the error `validateSurface` reports is determined by the surface |
| `Scope.CheckScope` | pkg/configfiles/scope.go:16-55 | the empty-scope error is reported exactly for an empty scope. Success requires a non-empty scope with both sections valid, and returns the configuration unchanged. A scope error takes precedence over an exclusions error. Each error's cause is the first failure of its section |

## Left out

- File reading and YAML decoding in `parseScope` (scope.go:16-36): the model starts from the decoded `ScopeFileData`.
- Error message texts: errors are datatypes that carry the offending value and index, not formatted strings.
- Everything outside the named core. This covers the pipeline driver (`run.go`) and the tool wrappers (`subfinder.go`, `httpx.go`, `alterx.go`). It also covers `datafiles`, `configfiles.go`, `envconfig`, the entry points and `cmd`, and the web UI.
- `DnsxFilterWildcards` (dnsx.go:66-75) is not modelled: it only builds a resolver and passes `dnsClient.Lookup` on. `Dnsx.FilterWildcards` takes the `lookup` parameter instead.
- The cache's mutex: concurrency is not modelled, and every operation is a single atomic step.
- The `Printf` progress output in `dnsxFilterWildcards`: I/O.
- `uuid.New()`: randomness. Label n is `newLabel(n)`, and the example lemmas only assume labels contain no dot.
- The internals of `publicsuffix.EffectiveTLDPlusOne`, `url.Parse`, `Hostname()`, `net.ParseIP` and `net.ParseCIDR`: foreign code, passed in as parameters.
- Unicode: lower-casing and white-space trimming cover ASCII only.
- Go string lengths: `len` counts UTF-8 bytes, while the model counts characters.
- Validation.ValidateDomain: the 253 limit is checked on characters, not UTF-8 bytes, so the two agree only on ASCII input.
- Aliasing: the Go target slice is a pointer that the code appends to in place. `SafeMerge.InsertSafeString` and `SafeMerge.InsertSafe` return the new value instead, so sharing of backing arrays is not modelled.
- The order in which Go iterates a map is not modelled. Where results come from a map, they are stated as sets or multisets:
  - `URLExtractDomains` and `URLExtractIPs`: a duplicate-free list whose elements are given exactly;
  - `TrimSubdomains`: a multiset;
  - `FilterWildcards`: equal to the detection fold over some parents-first order.
- Sorting.SortByKey: `sort.Slice` is not stable. The model's insertion sort happens to be stable, but its contract states only sortedness and permutation, so no proof relies on stability.
- Dnsx.FilterActive and Dnsx.ActiveIffCachedNonEmpty: the resolver is a fixed function `lookup`, so a repeated query gets the same answer. Time-outs, transient failures and retries are not modelled. With them, a name that occurs twice and is not cached could be returned once while its cache entry ends empty.
