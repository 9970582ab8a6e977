/**
  The in-run DNS answer cache (pkg/pipeline/type_dnscache.go). An empty address list
  is a stored negative answer, which `Get` reports as found.
 */
module Cache {

  class DNSCache {
    var cache: map<string, seq<string>>

    /** `NewDNSCache`: nothing has been asked yet. */
    constructor NewDNSCache()
      ensures cache == map[]
    {
      cache := map[];
    }

    /** `Get`: the stored list and `true`, or an empty list and `false` for a name never set. */
    method Get(domain: string) returns (ips: seq<string>, found: bool)
      ensures found <==> domain in cache
      ensures found ==> ips == cache[domain]
      ensures !found ==> ips == []
    {
      found := domain in cache;
      ips := if found then cache[domain] else [];
    }

    /** `Set`: overwrites the entry for `domain`, whatever it held, and touches no other entry. */
    method Set(domain: string, ips: seq<string>)
      modifies this
      ensures cache == old(cache)[domain := ips]
    {
      cache := cache[domain := ips];
    }
  }

  /** A fresh cache reports every name as not found. */
  method FreshCacheMisses(domain: string) returns (ips: seq<string>, found: bool)
    ensures !found && ips == []
  {
    var c := new DNSCache.NewDNSCache();
    ips, found := c.Get(domain);
  }

  /**
    After `Set(d, ips)`, `Get(d)` returns `ips` as found, also when `ips` is empty, and
    `Get(k)` for any other name answers as it did before.
   */
  method SetThenGet(c: DNSCache, d: string, ips: seq<string>, k: string)
    returns (got: seq<string>, found: bool, other: seq<string>, otherFound: bool)
    requires k != d
    modifies c
    ensures found && got == ips
    ensures otherFound == (k in old(c.cache)) && (otherFound ==> other == old(c.cache)[k])
  {
    c.Set(d, ips);
    got, found := c.Get(d);
    other, otherFound := c.Get(k);
  }

  /** The last `Set` on a name wins, and repeating a `Set` changes nothing. */
  method LastSetWins(c: DNSCache, d: string, first: seq<string>, second: seq<string>)
    modifies c
    ensures c.cache == old(c.cache)[d := second]
  {
    c.Set(d, first);
    c.Set(d, second);
    ghost var once := c.cache;
    c.Set(d, second);
    assert c.cache == once;
  }
}
