/** The resolver state the server shares between its tasks: an on/off flag,
    the in-memory domain table and the upstream server address. */
module Resolver {
  import opened Common
  import opened DomainNames
  import opened Tables
  import opened DomainTable

  /** `ResolverState`. The three `Arc<RwLock<..>>` cells become one object:
      every clone of the state shares the same cells, so an update through
      one clone is seen through all of them, as it is here through the one
      reference. */
  class ResolverState {
    var enabled: bool
    const domainMap: DomainMap
    var upstream: SocketAddr

    /** `ResolverState::new`: enabled, no domains, the given upstream. */
    constructor (upstream: SocketAddr)
      ensures enabled
      ensures fresh(domainMap) && domainMap.entries == map[]
      ensures this.upstream == upstream
    {
      enabled := true;
      domainMap := new DomainMap();
      this.upstream := upstream;
    }

    /** `set_enabled`: only the flag changes. */
    method SetEnabled(v: bool)
      modifies this
      ensures enabled == v
      ensures upstream == old(upstream)
    {
      enabled := v;
    }

    /** `enabled`. */
    method Enabled() returns (v: bool)
      ensures v == enabled
    {
      v := enabled;
    }

    /** `set_upstream`: only the upstream address changes. */
    method SetUpstream(addr: SocketAddr)
      modifies this
      ensures upstream == addr
      ensures enabled == old(enabled)
    {
      upstream := addr;
    }

    /** `upstream`. */
    method Upstream() returns (addr: SocketAddr)
      ensures addr == upstream
    {
      addr := upstream;
    }

    /** `add_domain`: `DomainMap::set` under the write lock; flag and upstream untouched. */
    method AddDomain(domain: string, ip: Ipv4)
      modifies domainMap
      ensures domainMap.entries == old(domainMap.entries)[Normalize(domain) := ip]
      ensures enabled == old(enabled) && upstream == old(upstream)
    {
      domainMap.Set(domain, ip);
    }

    /** `remove_domain`: `DomainMap::remove` under the write lock. */
    method RemoveDomain(domain: string)
      modifies domainMap
      ensures domainMap.entries == old(domainMap.entries) - {ToAsciiLowercase(domain)}
      ensures enabled == old(enabled) && upstream == old(upstream)
    {
      domainMap.Remove(domain);
    }

    /** `list_domains`: every stored entry once. */
    method ListDomains() returns (r: seq<(string, Ipv4)>)
      ensures IsListing(r, domainMap.entries)
    {
      r := domainMap.List();
    }

    /** `resolve`: the table's lookup, whatever the flag says
        (the flag is stored but never consulted). */
    method Resolve(qname: string) returns (r: Option<Ipv4>)
      ensures r == Lookup(domainMap.entries, qname)
    {
      r := domainMap.Resolve(qname);
    }
  }

  /** After `add_domain(name, ip)` any spelling of `name` that differs only in
      ASCII case or one trailing dot resolves to `ip`, through the shared state. */
  method AddThenResolve(state: ResolverState, name: string, ip: Ipv4, q: string) returns (r: Option<Ipv4>)
    requires Normalize(q) == Normalize(name)
    modifies state.domainMap
    ensures r == Some(ip)
  {
    state.AddDomain(name, ip);
    ResolveAfterSet(old(state.domainMap.entries), name, ip, q);
    r := state.Resolve(q);
  }

  /** `add_domain` then `remove_domain` of the same dot-free lower-case name
      leaves the name unresolvable, unless a wildcard covers it. */
  method AddRemoveThenResolve(state: ResolverState, name: string, ip: Ipv4) returns (r: Option<Ipv4>)
    requires !EndsWithDot(name)
    requires forall s :: s in DotSuffixes(name) ==> WildcardKey(s) !in state.domainMap.entries
    modifies state.domainMap
    ensures r == None
  {
    state.AddDomain(name, ip);
    state.RemoveDomain(name);
    assert ToAsciiLowercase(name) == Normalize(name);
    RemoveThenResolveMisses(state.domainMap.entries, name);
    r := state.Resolve(name);
  }
}
