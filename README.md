# felix-dns resolution core in Dafny

felix-dns is a small DNS server for local development. It answers A and ANY queries
for configured names from its own table and relays everything else to an
upstream resolver. This project models its core and proves properties of
the model:

- **Domain names** (`domain_names.dfy`, module `DomainNames`). Normalisation
  is ASCII lower-casing followed by popping one trailing dot. The module also
  covers `split('.')` and `join(".")` and the label suffixes wildcards are
  built from.
- **Tables** (`tables.dfy`, module `Tables`). The early-return search over
  candidate keys that both tables perform, what a listing of a table is, and
  the code-point order SQLite's `ORDER BY domain` sorts by.
- **`DomainMap`** (`domain_map.dfy`, module `DomainTable`). The in-memory
  table: a class whose `entries` map the methods update. `Resolve` is a loop
  proved against the reference function `Lookup`.
- **`SqliteDomainStore`** (`sqlite_domain_store.dfy`, module `SqliteStore`).
  The persistent table as a class over an abstract `domain_mappings` table:
  a map from key to four `i32` columns. Every statement may fail. The
  caller names the failing statement: a `fails` flag per method, and a
  `Fault` for `resolve`, which issues several statements. `Resolve` is a loop
  proved against the reference function `StoreLookup`.
- **`ResolverState`** (`resolver_state.dfy`, module `Resolver`). A class
  with the `enabled` flag, the `DomainMap` and the upstream address as
  fields.
- **DNS messages** (`dns_message.dfy`, module `Dns`). The header fields,
  questions and answer records the handler reads and writes, with RCODE
  values as in section 4.1.1 of RFC 1035.
- **`handle_packet`** (`server_handler.dfy`, module `ServerHandler`). A
  function from the decoded packet, the lookup, the upstream address and
  what the network does to exactly one outcome:
  - drop;
  - a synthesised A answer;
  - a verbatim relay of the upstream reply;
  - SERVFAIL.

The model keeps these behaviours of the code as written:

- `DomainMap::remove` removes the lower-cased name *without* stripping the
  trailing dot (domain_map.rs:26-33). The dot-stripped key `set` stored for
  `"name."` survives `remove("name.")` (`RemoveKeepsDotStrippedKey`).
- `DomainMap::resolve` builds its wildcard candidates from the raw query
  (domain_map.rs:47). A query with an upper-case letter after its first dot
  misses a lower-case wildcard, and so does a query with a trailing dot (`ResolveUppercaseWildcardMiss`,
  `ResolveTrailingDotWildcardMiss`). The SQLite store builds them from the
  normalised name, so neither happens there (`StoreWildcardAnyCase`).
- The handler expects a lookup that can fail
  (`if let Ok(Some(ip)) = state.resolve(..).await`, server_handler.rs:102).
  resolver_state.rs defines a lookup that cannot fail, and nothing in these
  files joins the two. `HandlePacket` therefore takes the lookup as a function
  `string -> Result<Option<Ipv4>>`. Two lemmas instantiate it:
  - `AnswerAfterAddDomain`, with the in-memory table behind it;
  - `AnswerAfterStoreSet`, with the SQLite store behind it.
- The `enabled` flag is stored and read back, but no lookup consults it, so
  the model's lookups ignore it as well.

## Model

| member | source | states |
|---|---|---|
| DomainNames.ToAsciiLowercase | felix-dns/src/domain_map.rs:37 | same length, and every character is the ASCII lower-case of the input's character at that position |
| DomainNames.StripTrailingDot | felix-dns/src/domain_map.rs:18-20 | exactly one trailing dot is removed if there is one; otherwise the text is unchanged |
| DomainNames.Normalize | felix-dns/src/domain_map.rs:15-20 | the key is no longer than the name and contains no ASCII upper-case letter |
| DomainNames.NormalizeIgnoresCase | felix-dns/src/domain_map.rs:15-20 | names that differ only in ASCII case get the same key |
| DomainNames.NormalizeTrailingDot | felix-dns/src/domain_map.rs:15-20 | a name with and without one trailing dot get the same key |
| DomainNames.Split | felix-dns/src/domain_map.rs:47 | `split('.')` gives at least one piece, and no piece contains a dot |
| DomainNames.Join | felix-dns/src/domain_map.rs:49 | `join(".")`: no labels give the empty text; the first label opens the joined text, and with two or more labels a separator follows it |
| DomainNames.WildcardKey | felix-dns/src/domain_map.rs:50 | `format!("*.{}", suffix)`: the marker `*.` followed by exactly the suffix, two characters longer |
| DomainNames.JoinSplit | felix-dns/src/domain_map.rs:47-49 | joining the pieces of a split with the separator gives the text back |
| DomainNames.SplitJoin | felix-dns/src/domain_map.rs:47-49 | splitting a join of dot-free labels gives the labels back |
| DomainNames.DotSuffixCount | felix-dns/src/domain_map.rs:47-48 | a name of n labels has n - 1 dot suffixes, one per wildcard candidate |
| DomainNames.JoinedLabelSuffix | felix-dns/src/domain_map.rs:49 | `labels[i+1..].join(".")` is the text after the (i+1)-th dot |
| Tables.FirstHit | felix-dns/src/domain_map.rs:38-55 | the index of the first candidate the table holds: none before it is held, and there is none exactly when no candidate is held |
| Tables.FirstHitSameKeys | felix-dns/src/sqlite_domain_store.rs:86-107 | which candidate is hit depends only on the keys stored, not on their values |
| Tables.ListingCovers | felix-dns/src/domain_map.rs:60-62 | a listing holds every stored (key, value) pair |
| Tables.LexLessTransitive | felix-dns/src/sqlite_domain_store.rs:127 | the `ORDER BY domain` order is transitive |
| Tables.LexLessTotal | felix-dns/src/sqlite_domain_store.rs:127 | any two distinct keys are ordered one way or the other |
| Tables.AscendingListingExists | felix-dns/src/sqlite_domain_store.rs:125-139 | every table has a listing in ascending key order |
| Tables.AscendingListingUnique | felix-dns/src/sqlite_domain_store.rs:125-139 | that ascending listing is unique, so `list`'s result is fully determined by the table |
| DomainTable.MapCandidates | felix-dns/src/domain_map.rs:36-55 | the candidates are the normalised name, then `"*." + s` for each dot suffix s of the raw query, longest first |
| DomainTable.Lookup | felix-dns/src/domain_map.rs:36-58 | an answer is always an address the table stores, and a stored normalised name answers with its own address |
| DomainTable.CandidateFromLabels | felix-dns/src/domain_map.rs:47-50 | the key the loop builds at index i is candidate i + 1 |
| DomainTable.ScanMeaning | felix-dns/src/domain_map.rs:36-58 | probing the candidates one at a time with early return gives the address of the first stored candidate |
| DomainTable.DomainMap.constructor | felix-dns/src/domain_map.rs:8-12 | a new table is empty |
| DomainTable.DomainMap.Set | felix-dns/src/domain_map.rs:14-23 | the entry for the normalised name becomes `ip`; nothing else changes |
| DomainTable.DomainMap.Remove | felix-dns/src/domain_map.rs:25-34 | exactly the lower-cased name as given, trailing dot included, is removed |
| DomainTable.DomainMap.Resolve | felix-dns/src/domain_map.rs:36-58 | the loop returns `Lookup` of the table for the query, and the table is not modified |
| DomainTable.DomainMap.List | felix-dns/src/domain_map.rs:60-62 | every stored (key, address) pair exactly once, in no particular order |
| DomainTable.SetOverwrites | felix-dns/src/domain_map.rs:14-23 | after `set` the key holds the new address, other keys keep theirs, and the key count grows by at most one |
| DomainTable.ResolveAfterSet | felix-dns/src/domain_map.rs:14-45 | after `set(n, ip)` every query with the same normal form as n resolves to ip |
| DomainTable.RemoveDeletesLowercasedKey | felix-dns/src/domain_map.rs:25-34 | `remove` deletes only the lower-cased key; other entries are unchanged; removing an absent key changes nothing |
| DomainTable.RemoveKeepsDotStrippedKey | felix-dns/src/domain_map.rs:26-33 | removing `"name."` leaves the entry `set("name.")` created, and the name still resolves |
| DomainTable.RemoveThenResolveMisses | felix-dns/src/domain_map.rs:25-58 | removing a name without a trailing dot makes it miss unless one of its wildcards is stored |
| DomainTable.ResolveExactFirst | felix-dns/src/domain_map.rs:37-45 | a stored exact entry answers before any wildcard |
| DomainTable.ResolveWildcardInOrder | felix-dns/src/domain_map.rs:47-55 | on an exact miss the most specific stored wildcard answers |
| DomainTable.ResolveNoneIff | felix-dns/src/domain_map.rs:36-58 | the lookup misses exactly when neither the normalised name nor any wildcard candidate is stored; a hit is a stored candidate's address |
| DomainTable.ResolveSingleLabel | felix-dns/src/domain_map.rs:47-55 | a single-label query never hits a wildcard |
| DomainTable.ResolveBareSuffixMisses | felix-dns/src/domain_map.rs:47-55 | `"*." + q` alone never answers q itself (`"*.example.com"` does not answer `"example.com"`) |
| DomainTable.ResolveWildcardOneLevel | felix-dns/src/domain_map.rs:47-55 | a wildcard answers a name one label below its suffix (`"api.example.com"`) |
| DomainTable.ResolveWildcardTwoLevels | felix-dns/src/domain_map.rs:47-55 | a wildcard answers a name two labels below its suffix when the nearer wildcard is absent (`"deep.sub.example.com"`) |
| DomainTable.ResolveLowercaseWildcardHit | felix-dns/src/lib.rs:59-63 | with only `"*.dev"` stored, `"foo.dev"` resolves to its address |
| DomainTable.ResolveTwoLabels | felix-dns/src/domain_map.rs:36-58 | a two-label query consults exactly its normalised name, then the wildcard of its last label as given |
| DomainTable.ResolveUppercaseWildcardMiss | felix-dns/src/domain_map.rs:37-47 | a two-label query whose last label has an upper-case letter misses the lower-case wildcard its normal form would hit |
| DomainTable.ResolveTrailingDotWildcardMiss | felix-dns/src/domain_map.rs:37-47 | a two-label query with a trailing dot misses the wildcard of its last label |
| SqliteStore.EncodeRow | felix-dns/src/sqlite_domain_store.rs:56-65 | the four columns hold the octets in 0..255 and decode back to the address |
| SqliteStore.DecodeRow | felix-dns/src/sqlite_domain_store.rs:117-118 | each column in 0..255 becomes the octet at its position (`as u8` keeps the low 8 bits) |
| SqliteStore.RowRoundTrip | felix-dns/src/sqlite_domain_store.rs:56-65 | addresses round-trip through the columns, and distinct addresses get distinct rows |
| SqliteStore.ConnectionString | felix-dns/src/sqlite_domain_store.rs:12-16 | `"sqlite::memory:"` for `":memory:"`, otherwise `"sqlite:" + path + "?mode=rwc"`; always starts with `sqlite:` |
| SqliteStore.ConnectionStringInjective | felix-dns/src/sqlite_domain_store.rs:12-16 | distinct paths get distinct connection strings |
| SqliteStore.StoreCandidates | felix-dns/src/sqlite_domain_store.rs:86-107 | one candidate per label of the normalised name: the name itself, then its wildcards, longest first |
| SqliteStore.StoreLookup | felix-dns/src/sqlite_domain_store.rs:86-107 | never an error without a fault; a miss exactly when no candidate is stored and no statement fails; a hit is the decoded row of a stored candidate |
| SqliteStore.StoreLookupFirstHit | felix-dns/src/sqlite_domain_store.rs:92-102 | with candidate j the first one stored, `resolve` fails exactly when one of statements 0..j fails, and otherwise answers with candidate j's row; later statements are never issued |
| SqliteStore.StoreLookupErrorIff | felix-dns/src/sqlite_domain_store.rs:92-102 | `resolve` fails exactly when the failing statement is issued, that is when no candidate before it is stored |
| SqliteStore.FirstStatementFails | felix-dns/src/sqlite_domain_store.rs:92 | a failing exact query makes `resolve` fail |
| SqliteStore.ProbeMeaning | felix-dns/src/sqlite_domain_store.rs:86-107 | issuing one query per candidate with early return on a row or an error gives `StoreLookup` |
| SqliteStore.StoreCandidateFromLabels | felix-dns/src/sqlite_domain_store.rs:96-99 | the key the loop builds at index i is candidate i + 1 |
| SqliteStore.NormalizedName | felix-dns/src/sqlite_domain_store.rs:87-90 | the in-place lower-casing and pop give the normal form |
| SqliteStore.GetExactMatch | felix-dns/src/sqlite_domain_store.rs:109-123 | the decoded row stored under exactly that key, none if absent, an error if the query fails |
| SqliteStore.SqliteDomainStore.New | felix-dns/src/sqlite_domain_store.rs:11-23 | on success the store is connected with the chosen connection string, and an in-memory database starts empty; a failure is an error |
| SqliteStore.SqliteDomainStore.Set | felix-dns/src/sqlite_domain_store.rs:50-70 | upsert of the encoded address under the normalised name, or an error with the table unchanged |
| SqliteStore.SqliteDomainStore.Remove | felix-dns/src/sqlite_domain_store.rs:72-84 | deletion of the normalised (dot-stripped) name only, a no-op when absent, or an error with the table unchanged |
| SqliteStore.SqliteDomainStore.Resolve | felix-dns/src/sqlite_domain_store.rs:86-107 | the loop returns `StoreLookup` over the normalised name's candidates, failing if a statement issued before the first hit fails |
| SqliteStore.SqliteDomainStore.List | felix-dns/src/sqlite_domain_store.rs:125-139 | every row once, decoded, in ascending key order, or an error |
| SqliteStore.SqliteDomainStore.OrderedRows | felix-dns/src/sqlite_domain_store.rs:126-130 | the rows of `ORDER BY domain`: each once, keys strictly ascending |
| SqliteStore.SqliteDomainStore.Count | felix-dns/src/sqlite_domain_store.rs:141-147 | the number of stored rows, or an error |
| SqliteStore.SqliteDomainStore.Clear | felix-dns/src/sqlite_domain_store.rs:149-155 | the table becomes empty, or an error with the table unchanged |
| SqliteStore.StoreResolveIgnoresCase | felix-dns/src/sqlite_domain_store.rs:87-90 | queries differing only in ASCII case resolve alike, wildcards included |
| SqliteStore.StoreResolveIgnoresTrailingDot | felix-dns/src/sqlite_domain_store.rs:87-90 | a query with and without one trailing dot resolve alike |
| SqliteStore.StoreWildcardAnyCase | felix-dns/src/sqlite_domain_store.rs:86-107 | `"*.last"` stored lower-case answers `first.last` in any case, with or without a trailing dot |
| SqliteStore.StoreAgreesWithDomainMap | felix-dns/src/sqlite_domain_store.rs:86-107 | for an already normalised query the store answers as `DomainMap` would over the decoded table |
| SqliteStore.StoreResolveAfterSet | felix-dns/src/sqlite_domain_store.rs:50-107 | after `set(d, ip)` every query with d's normal form resolves to ip |
| SqliteStore.ExactMatchAfterSet | felix-dns/src/sqlite_domain_store.rs:56-65 | after `set(d, ip)`, `get_exact_match` of d's normal form reads ip back |
| SqliteStore.StoreResolveAfterRemove | felix-dns/src/sqlite_domain_store.rs:72-107 | after `remove(d)` a query with d's normal form misses unless one of its wildcards is stored |
| Resolver.ResolverState.constructor | felix-dns/src/resolver_state.rs:15-21 | enabled, an empty fresh table, the given upstream |
| Resolver.ResolverState.SetEnabled | felix-dns/src/resolver_state.rs:23-25 | the flag becomes v; upstream and table unchanged |
| Resolver.ResolverState.Enabled | felix-dns/src/resolver_state.rs:27-29 | the current flag |
| Resolver.ResolverState.SetUpstream | felix-dns/src/resolver_state.rs:31-33 | the upstream becomes the address; flag and table unchanged |
| Resolver.ResolverState.Upstream | felix-dns/src/resolver_state.rs:35-37 | the current upstream |
| Resolver.ResolverState.AddDomain | felix-dns/src/resolver_state.rs:39-41 | the table changes exactly as `DomainMap::set` changes it |
| Resolver.ResolverState.RemoveDomain | felix-dns/src/resolver_state.rs:43-45 | the table changes exactly as `DomainMap::remove` changes it |
| Resolver.ResolverState.ListDomains | felix-dns/src/resolver_state.rs:47-49 | a listing of the current table; no state changes |
| Resolver.ResolverState.Resolve | felix-dns/src/resolver_state.rs:51-54 | `Lookup` of the current table; no state changes |
| Resolver.AddThenResolve | felix-dns/src/lib.rs:52-56 | a name added through the shared state resolves to its address in any spelling with the same normal form |
| Resolver.AddRemoveThenResolve | felix-dns/src/lib.rs:33-40 | add then remove of a name without a trailing dot leaves it unresolvable unless a wildcard covers it |
| Dns.ResponseCodeValue | felix-dns/src/server_handler.rs:139 | the RCODE of section 4.1.1 of RFC 1035: named codes are 0..5, `ServFail` is exactly 2 and `NoError` exactly 0 among them |
| Dns.ResponseCodeValueInjective | felix-dns/src/server_handler.rs:139 | distinct named codes, and unnamed codes above 5, have distinct values |
| Dns.NewMessage | felix-dns/src/server_handler.rs:105 | a fresh message: id 0, a query, opcode Query, no flags, RCODE 0, empty sections |
| ServerHandler.ForwardUdpAndRelay | felix-dns/src/server_handler.rs:156-173 | success exactly when upstream replied; the relayed bytes are the reply (cut to the 4096-byte buffer); a failing step is the error |
| ServerHandler.AnswerReply | felix-dns/src/server_handler.rs:105-114 | response to the request id, opcode Query, authoritative, question echoed, RCODE 0, one A record for the question name with TTL 60 and the address |
| ServerHandler.ServFailReply | felix-dns/src/server_handler.rs:134-140 | response to the request id, opcode Query, authoritative, question echoed, RCODE 2, no answers |
| ServerHandler.BuildAnswerReply | felix-dns/src/server_handler.rs:105-114 | the setter sequence builds `AnswerReply` |
| ServerHandler.BuildServFailReply | felix-dns/src/server_handler.rs:134-140 | the setter sequence builds `ServFailReply` |
| ServerHandler.Status | felix-dns/src/server_handler.rs:86-151 | the handler returns an error exactly after a SERVFAIL, and that error is the forwarding error |
| ServerHandler.IsAddressQuery | felix-dns/src/server_handler.rs:104 | only A and ANY questions are answered locally |
| ServerHandler.LocalHit | felix-dns/src/server_handler.rs:102-104 | a local answer needs a lookup that succeeded with an address and an A or ANY question |
| ServerHandler.HandlePacket | felix-dns/src/server_handler.rs:75-154 | drop exactly for an undecodable packet or no question; the local answer exactly for a hit on an A/ANY question, sent to src and equal to `AnswerReply` for the request id, the first question and the looked-up address; otherwise the unmodified packet goes to the upstream and the reply is relayed to src, or a SERVFAIL carrying the forwarding error is sent |
| ServerHandler.FirstQuestionOnly | felix-dns/src/server_handler.rs:90-97 | messages with the same id and first question are handled identically |
| ServerHandler.LocalAnswerIgnoresUpstream | felix-dns/src/server_handler.rs:102-124 | a local answer is the same whatever the upstream address and network do |
| ServerHandler.NoLocalHitForwards | felix-dns/src/server_handler.rs:102-129 | a miss, a lookup error and a non-A/ANY hit are all forwarded alike; the result is a relay exactly when upstream replied |
| ServerHandler.ErrorOnlyAfterServFail | felix-dns/src/server_handler.rs:127-151 | the handler fails exactly when a question is forwarded and forwarding fails |
| ServerHandler.AnswerAfterAddDomain | felix-dns/src/server_handler.rs:102-123 | with the in-memory table as the lookup, a name added with `add_domain` is answered locally with its address |
| ServerHandler.AnswerAfterStoreSet | felix-dns/src/server_handler.rs:102-123 | with the SQLite store as the lookup, a name stored with `set` is answered locally with its address |
| ServerHandler.StoreFailureForwards | felix-dns/src/server_handler.rs:102 | a lookup that fails in the store makes the handler forward |

## Left out

- The `run_udp_server` receive loop, the task spawned per packet, the
  `select!` shutdown and `ServerHandle::shutdown` (server_handler.rs:13-73):
  concurrency and socket I/O.
- The DNS wire codec (`Message::from_vec`, `emit`). Decoding is an input to
  `HandlePacket`; encoding is not modelled.
- `Name::from_utf8`, `emit` and `send_to` failing for the synthesised
  replies are not modelled. The handler would return those errors (with `?`)
  without sending anything. The model assumes the replies are always sent.
- Names stay in the textual form `to_utf8` gives; parsing that text back
  into a `Name` is taken to give the question's name.
- `forward_udp_and_relay`'s sockets, its two-second timeout and the `recv`
  into the 4096-byte buffer. Each is one `Exchange` input: the datagram
  received, or the step that failed.
- The `Arc<RwLock<..>>` cells of `ResolverState`: one shared object with
  plain fields stands for all clones. Lock contention and interleaving are
  not modelled.
- SQL engine specifics: the connection pool, the schema DDL and its
  timestamp trigger (sqlite_domain_store.rs:17, 25-48), and asynchrony. The
  table is a map; any statement may fail, and the caller says which.
- SqliteStore.SqliteDomainStore.Count: the `i64` width of `COUNT(*)` is not
  modelled, since a map of more than 2^63 rows cannot exist.
- SqliteStore.DecodeRow: columns outside 0..255 cannot be written by `set`.
  They are decoded modulo 256, which is the effect of `as u8` on the `i32`.
  The ensures only speaks of columns in range.
- `felix/src/main.rs` is not part of this model. It is written against a
  `ResolverState` API (`new_with_sqlite`, `add_domain_sync`) that the
  modelled files do not define.
- The resolver state has no two-backend version, and the `enabled` flag is
  not enforced: no modelled code implements either.
- The integration test in lib.rs, which needs a running server and a
  network.
- Logging and `println!`.
