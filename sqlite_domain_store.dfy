/** The persistent domain table (`SqliteDomainStore` in
    felix-dns/src/sqlite_domain_store.rs). The `domain_mappings` table is kept as a
    map from its primary key `domain` to the four integer columns `ip_a`..`ip_d`.
    Every statement may fail in the database layer; the caller says which one
    does, and a failing statement leaves the table as it was. */
module SqliteStore {
  import opened Common
  import opened DomainNames
  import opened Tables
  import DomainTable

  /** An SQLite INTEGER column as bound from / read into a Rust `i32`. */
  type I32 = x: int | -0x8000_0000 <= x < 0x8000_0000

  /** One row of `domain_mappings` without its key and timestamps. */
  datatype Row = Row(ipA: I32, ipB: I32, ipC: I32, ipD: I32)

  /** `ip.octets()` bound as four `i32` columns. */
  function EncodeRow(ip: Ipv4): (row: Row)
    ensures 0 <= row.ipA < 256 && 0 <= row.ipB < 256 && 0 <= row.ipC < 256 && 0 <= row.ipD < 256
    ensures DecodeRow(row) == ip
  {
    Row(ip.a, ip.b, ip.c, ip.d)
  }

  /** `Ipv4Addr::new(ip_a as u8, ...)`: each column keeps its low 8 bits. */
  function DecodeRow(row: Row): (ip: Ipv4)
    ensures 0 <= row.ipA < 256 ==> ip.a == row.ipA
    ensures 0 <= row.ipB < 256 ==> ip.b == row.ipB
    ensures 0 <= row.ipC < 256 ==> ip.c == row.ipC
    ensures 0 <= row.ipD < 256 ==> ip.d == row.ipD
  {
    Ipv4(row.ipA % 256, row.ipB % 256, row.ipC % 256, row.ipD % 256)
  }

  /** Every row that `set` writes decodes to its address again; rows are equal
      exactly when their addresses are. */
  lemma RowRoundTrip(ip: Ipv4, ip': Ipv4)
    ensures DecodeRow(EncodeRow(ip)) == ip
    ensures EncodeRow(ip) == EncodeRow(ip') <==> ip == ip'
  {
  }

  const MemoryPath: string := ":memory:"

  /** The connection string `new` opens: an in-memory database for `":memory:"`,
      otherwise the file at `path`, created if missing. */
  function ConnectionString(path: string): (conn: string)
    ensures 7 <= |conn| && conn[..7] == "sqlite:"
    ensures path == MemoryPath ==> conn == "sqlite::memory:"
    ensures path != MemoryPath ==> conn == "sqlite:" + path + "?mode=rwc"
  {
    if path == MemoryPath then "sqlite::memory:" else "sqlite:" + path + "?mode=rwc"
  }

  /** Different paths open different databases: the connection string determines the path. */
  lemma ConnectionStringInjective(p: string, q: string)
    requires ConnectionString(p) == ConnectionString(q)
    ensures p == q
  {
    ConnectionStringEnd(p);
    ConnectionStringEnd(q);
    if p != MemoryPath && q != MemoryPath {
      var c := ConnectionString(p);
      assert p == c[7..|c| - 9];
    }
  }

  /** The last character tells an in-memory connection string from a file one. */
  lemma ConnectionStringEnd(p: string)
    ensures ConnectionString(p)[|ConnectionString(p)| - 1] == if p == MemoryPath then ':' else 'c'
  {
  }

  /** Which of the statements an operation issues, counted from 0, the
      database fails, if any. */
  datatype Fault = NoFault | FailAt(statement: nat)

  /** The keys `resolve` looks up for the normalised name `n`, one query
      each, in order: `n` itself, then `"*." + suffix` for every suffix of `n`
      that follows a dot, the most specific first; one key per label of `n`. */
  function StoreCandidates(n: string): (keys: seq<string>)
    ensures |keys| == |Split(n, '.')|
    ensures keys[0] == n
    ensures keys[1..] == WildcardKeys(DotSuffixes(n))
  {
    DotSuffixCount(n);
    [n] + WildcardKeys(DotSuffixes(n))
  }

  /** What `resolve` returns when it looks up `keys` against `table` and the
      statement `fault` names (0 for the exact lookup, i + 1 for the i-th
      wildcard) fails: the address of the first stored key, unless the failing
      statement is among those issued up to that hit; statements after the
      first hit are never issued. */
  function StoreLookup(table: map<string, Row>, keys: seq<string>, fault: Fault): (r: Result<Option<Ipv4>>)
    ensures r.Err? ==> fault.FailAt? && fault.statement < |keys| && r.error == StorageError
    ensures fault.NoFault? ==> r.Ok?
    ensures r == Ok(None) <==> (forall j :: 0 <= j < |keys| ==> keys[j] !in table)
                                  && !(fault.FailAt? && fault.statement < |keys|)
    ensures r.Ok? && r.value.Some? ==> exists j :: 0 <= j < |keys| && keys[j] in table
                                                  && DecodeRow(table[keys[j]]) == r.value.value
  {
    var hit := FirstHit(table, keys);
    var issued := if hit.Some? then hit.value + 1 else |keys|;
    if fault.FailAt? && fault.statement < issued then Err(StorageError)
    else match hit
      case Some(j) => Ok(Some(DecodeRow(table[keys[j]])))
      case None => Ok(None)
  }

  /** The exact lookup is always issued, so when it fails `resolve` fails. */
  lemma FirstStatementFails(table: map<string, Row>, keys: seq<string>)
    requires |keys| > 0
    ensures StoreLookup(table, keys, FailAt(0)) == Err(StorageError)
  {
  }

  /** With candidate `j` the first one stored, `resolve` issues statements
      0..j only: it fails exactly when one of those fails, and otherwise
      answers with candidate `j`'s row, whatever a later statement would do. */
  lemma StoreLookupFirstHit(table: map<string, Row>, keys: seq<string>, fault: Fault, j: nat)
    requires j < |keys| && keys[j] in table
    requires forall i :: 0 <= i < j ==> keys[i] !in table
    ensures StoreLookup(table, keys, fault) ==
              if fault.FailAt? && fault.statement <= j then Err(StorageError)
              else Ok(Some(DecodeRow(table[keys[j]])))
  {
    FirstHitAt(table, keys, j);
  }

  /** `resolve` fails exactly when the failing statement is issued, that is
      when no candidate before it is stored. */
  lemma StoreLookupErrorIff(table: map<string, Row>, keys: seq<string>, fault: Fault)
    ensures StoreLookup(table, keys, fault).Err? <==>
              fault.FailAt? && fault.statement < |keys| &&
              forall i :: 0 <= i < fault.statement ==> keys[i] !in table
  {
    var hit := FirstHit(table, keys);
    if fault.FailAt? && fault.statement < |keys| && hit.Some? && hit.value < fault.statement {
      assert keys[hit.value] in table;
    }
  }

  /** The statements `resolve` issues from candidate `from` on, one
      `get_exact_match` each: an error or a row ends the search. */
  function Probe(table: map<string, Row>, keys: seq<string>, from: nat, fault: Fault): (r: Result<Option<Ipv4>>)
    requires from <= |keys|
    decreases |keys| - from
  {
    if from == |keys| then Ok(None)
    else
      var q := GetExactMatch(table, keys[from], fault == FailAt(from));
      if q.Err? || q.value.Some? then q else Probe(table, keys, from + 1, fault)
  }

  /** Issuing the statements one by one gives `StoreLookup`, once no earlier
      key is stored and no earlier statement fails. */
  lemma {:induction false} ProbeMeaning(table: map<string, Row>, keys: seq<string>, from: nat, fault: Fault)
    requires from <= |keys|
    requires forall j :: 0 <= j < from ==> keys[j] !in table
    requires fault.NoFault? || fault.statement >= from
    ensures Probe(table, keys, from, fault) == StoreLookup(table, keys, fault)
    decreases |keys| - from
  {
    if from < |keys| && fault != FailAt(from) {
      if keys[from] in table {
        FirstHitAt(table, keys, from);
      } else {
        ProbeMeaning(table, keys, from + 1, fault);
      }
    }
  }

  /** The table as addresses: what a listing of it holds. */
  function Decoded(table: map<string, Row>): (m: map<string, Ipv4>)
    ensures m.Keys == table.Keys
    ensures forall k :: k in table ==> m[k] == DecodeRow(table[k])
  {
    map k | k in table :: DecodeRow(table[k])
  }

  /** The wildcard key built from `labels[i + 1..]` of `n` is candidate `i + 1`. */
  lemma StoreCandidateFromLabels(n: string, i: nat)
    requires i + 1 < |Split(n, '.')|
    ensures "*." + Join(Split(n, '.')[i + 1..], '.') == StoreCandidates(n)[i + 1]
  {
    var keys := StoreCandidates(n);
    JoinedLabelSuffix(n, i);
    assert keys[i + 1] == keys[1..][i] == WildcardKey(DotSuffixes(n)[i]);
  }

  /** The normalisation every statement applies to its name argument:
      ASCII lower-casing, then popping one trailing dot. */
  method NormalizedName(domain: string) returns (n: string)
    ensures n == Normalize(domain)
  {
    n := ToAsciiLowercase(domain);
    if EndsWithDot(n) {
      n := n[..|n| - 1];
    }
  }

  /** `get_exact_match`: the row stored under exactly `domain`, decoded;
      `fails` says that the query failed. */
  function GetExactMatch(table: map<string, Row>, domain: string, fails: bool): (r: Result<Option<Ipv4>>)
    ensures fails ==> r == Err(StorageError)
    ensures !fails && domain in table ==> r == Ok(Some(DecodeRow(table[domain])))
    ensures !fails && domain !in table ==> r == Ok(None)
  {
    if fails then Err(StorageError)
    else if domain in table then Ok(Some(DecodeRow(table[domain])))
    else Ok(None)
  }

  class SqliteDomainStore {
    /** The connection string the pool was opened with. */
    const connection: string
    /** The rows of `domain_mappings`, by primary key. */
    var table: map<string, Row>

    constructor Connected(connection: string, rows: map<string, Row>)
      ensures this.connection == connection && table == rows
    {
      this.connection := connection;
      table := rows;
    }

    /** `SqliteDomainStore::new`: connect and create the table if it does not
        exist. `stored` is what the database file already holds (nothing for
        an in-memory database); `fails` says that connecting or creating the
        schema failed. */
    static method New(databasePath: string, stored: map<string, Row>, fails: bool)
      returns (r: Result<SqliteDomainStore>)
      ensures fails <==> r.Err?
      ensures r.Err? ==> r.error == StorageError
      ensures r.Ok? ==> fresh(r.value) && r.value.connection == ConnectionString(databasePath)
      ensures r.Ok? ==> r.value.table == if databasePath == MemoryPath then map[] else stored
    {
      var connectionString := ConnectionString(databasePath);
      if fails {
        return Err(StorageError);
      }
      var rows := if databasePath == MemoryPath then map[] else stored;
      var store := new SqliteDomainStore.Connected(connectionString, rows);
      return Ok(store);
    }

    /** `set`: `INSERT OR REPLACE` under the normalised name. */
    method Set(domain: string, ip: Ipv4, fails: bool) returns (r: Result<()>)
      modifies this
      ensures fails ==> r == Err(StorageError) && table == old(table)
      ensures !fails ==> r == Ok(()) && table == old(table)[Normalize(domain) := EncodeRow(ip)]
    {
      var normalizedDomain := ToAsciiLowercase(domain);
      if EndsWithDot(normalizedDomain) {
        normalizedDomain := normalizedDomain[..|normalizedDomain| - 1];
      }
      if fails {
        return Err(StorageError);
      }
      table := table[normalizedDomain := EncodeRow(ip)];
      return Ok(());
    }

    /** `remove`: `DELETE ... WHERE domain = ?` with the normalised name. */
    method Remove(domain: string, fails: bool) returns (r: Result<()>)
      modifies this
      ensures fails ==> r == Err(StorageError) && table == old(table)
      ensures !fails ==> r == Ok(()) && table == old(table) - {Normalize(domain)}
    {
      var normalizedDomain := ToAsciiLowercase(domain);
      if EndsWithDot(normalizedDomain) {
        normalizedDomain := normalizedDomain[..|normalizedDomain| - 1];
      }
      if fails {
        return Err(StorageError);
      }
      table := table - {normalizedDomain};
      return Ok(());
    }

    /** `resolve`: an exact query for the normalised name, then one query per
        label suffix of the normalised name; the first hit or the first error
        ends the search. */
    method Resolve(qname: string, fault: Fault) returns (r: Result<Option<Ipv4>>)
      ensures r == StoreLookup(table, StoreCandidates(Normalize(qname)), fault)
    {
      var normalizedQname := NormalizedName(qname);
      ghost var keys := StoreCandidates(normalizedQname);
      ProbeMeaning(table, keys, 0, fault);
      var exact := GetExactMatch(table, normalizedQname, fault == FailAt(0));
      if exact.Err? || exact.value.Some? {
        return exact;
      }
      var labels := Split(normalizedQname, '.');
      for i := 0 to |labels| - 1
        invariant Probe(table, keys, i + 1, fault) == Probe(table, keys, 0, fault)
      {
        var suffix := Join(labels[i + 1..], '.');
        var wildcard := "*." + suffix;
        StoreCandidateFromLabels(normalizedQname, i);
        var hit := GetExactMatch(table, wildcard, fault == FailAt(i + 1));
        if hit.Err? || hit.value.Some? {
          return hit;
        }
      }
      return Ok(None);
    }

    /** `list`: every row, `ORDER BY domain`, decoded into (domain, address) pairs. */
    method List(fails: bool) returns (r: Result<seq<(string, Ipv4)>>)
      ensures fails ==> r == Err(StorageError)
      ensures !fails ==> r.Ok? && IsListing(r.value, Decoded(table)) && Ascending(r.value)
    {
      if fails {
        return Err(StorageError);
      }
      var rows := OrderedRows();
      var result: seq<(string, Ipv4)> := [];
      for i := 0 to |rows|
        invariant |result| == i
        invariant forall j :: 0 <= j < i ==> result[j] == (rows[j].0, DecodeRow(rows[j].1))
      {
        var (domain, row) := rows[i];
        var ip := DecodeRow(row);
        result := result + [(domain, ip)];
      }
      return Ok(result);
    }

    /** The rows `SELECT ... ORDER BY domain` returns: each row once, by ascending key. */
    method OrderedRows() returns (rows: seq<(string, Row)>)
      ensures IsListing(rows, table) && Ascending(rows)
    {
      rows := [];
      var rest := table.Keys;
      while rest != {}
        invariant rest <= table.Keys
        invariant |rows| + |rest| == |table|
        invariant forall i :: 0 <= i < |rows| ==> rows[i].0 in table && rows[i].0 !in rest && table[rows[i].0] == rows[i].1
        invariant forall i, k :: 0 <= i < |rows| && k in rest ==> LexLess(rows[i].0, k)
        invariant Ascending(rows)
        decreases |rest|
      {
        ghost var least := LeastKey(rest);
        var k :| k in rest && forall x :: x in rest && x != k ==> LexLess(k, x);
        rows := rows + [(k, table[k])];
        rest := rest - {k};
      }
      forall i, j | 0 <= i < j < |rows| ensures rows[i].0 != rows[j].0 {
        LexLessIrreflexive(rows[i].0);
      }
    }

    /** `count`: `SELECT COUNT(*)`. */
    method Count(fails: bool) returns (r: Result<int>)
      ensures fails ==> r == Err(StorageError)
      ensures !fails ==> r == Ok(|table|)
    {
      if fails {
        return Err(StorageError);
      }
      return Ok(|table|);
    }

    /** `clear`: `DELETE FROM domain_mappings`. */
    method Clear(fails: bool) returns (r: Result<()>)
      modifies this
      ensures fails ==> r == Err(StorageError) && table == old(table)
      ensures !fails ==> r == Ok(()) && table == map[]
    {
      if fails {
        return Err(StorageError);
      }
      table := map[];
      return Ok(());
    }
  }

  /** A query is looked up under its normal form only, so `resolve` answers
      the same for names that differ in the case of ASCII letters ... */
  lemma StoreResolveIgnoresCase(table: map<string, Row>, q1: string, q2: string, fault: Fault)
    requires SameIgnoringAsciiCase(q1, q2)
    ensures StoreLookup(table, StoreCandidates(Normalize(q1)), fault)
         == StoreLookup(table, StoreCandidates(Normalize(q2)), fault)
  {
    NormalizeIgnoresCase(q1, q2);
  }

  /** ... and for a name with or without one trailing dot. */
  lemma StoreResolveIgnoresTrailingDot(table: map<string, Row>, q: string, fault: Fault)
    requires !EndsWithDot(q)
    ensures StoreLookup(table, StoreCandidates(Normalize(q + ".")), fault)
         == StoreLookup(table, StoreCandidates(Normalize(q)), fault)
  {
    NormalizeTrailingDot(q);
  }

  /** Unlike `DomainMap` (see `DomainTable.ResolveUppercaseWildcardMiss` and
      `DomainTable.ResolveTrailingDotWildcardMiss`), the store answers a
      two-label query from the wildcard of its last label whatever the case
      of the query and with or without a trailing dot. */
  lemma StoreWildcardAnyCase(first: string, last: string, row: Row, trailingDot: bool)
    requires '.' !in first && '.' !in last
    requires |first| > 0 && first[0] != '*' && |last| > 0
    ensures var q := if trailingDot then first + "." + last + "." else first + "." + last;
      StoreLookup(map[WildcardKey(ToAsciiLowercase(last)) := row], StoreCandidates(Normalize(q)), NoFault)
        == Ok(Some(DecodeRow(row)))
  {
    var lf := ToAsciiLowercase(first);
    NormalizeTwoLabels(first, last);
    assert lf[0] == LowerChar(first[0]);
    TwoLabelWildcardHit(lf, ToAsciiLowercase(last), row);
  }

  /** A two-label normalised name whose first label is not `"*"`-led is
      answered by the wildcard of its last label. */
  lemma TwoLabelWildcardHit(first: string, last: string, row: Row)
    requires '.' !in first && '.' !in last
    requires |first| > 0 && first[0] != '*'
    ensures StoreLookup(map[WildcardKey(last) := row], StoreCandidates(first + "." + last), NoFault)
         == Ok(Some(DecodeRow(row)))
  {
    var n := first + "." + last;
    TwoLabelCandidates(first, last);
    assert n[0] != '*';
    FirstHitAt(map[WildcardKey(last) := row], [n, WildcardKey(last)], 1);
  }

  /** The candidates of a two-label normalised name. */
  lemma TwoLabelCandidates(first: string, last: string)
    requires '.' !in first && '.' !in last
    ensures StoreCandidates(first + "." + last) == [first + "." + last, WildcardKey(last)]
  {
    DotSuffixesAfterLabel(first, last);
    DotSuffixesOfSingleLabel(last);
    var keys := StoreCandidates(first + "." + last);
    assert keys[1] == keys[1..][0];
  }

  /** On a name already in normal form the store and `DomainMap` consult the
      same keys, so over the same entries they give the same answer. */
  lemma StoreAgreesWithDomainMap(table: map<string, Row>, q: string)
    requires Normalize(q) == q
    ensures StoreLookup(table, StoreCandidates(Normalize(q)), NoFault)
         == match DomainTable.Lookup(Decoded(table), q)
            case Some(ip) => Ok(Some(ip))
            case None => Ok(None)
  {
    var keys := StoreCandidates(q);
    assert keys == DomainTable.MapCandidates(q);
    FirstHitSameKeys(table, Decoded(table), keys);
  }

  /** After `set(domain, ip)`, resolving any name with the same normal form
      returns `ip`: the row round-trips through its four columns. */
  lemma StoreResolveAfterSet(table: map<string, Row>, domain: string, ip: Ipv4, q: string)
    requires Normalize(q) == Normalize(domain)
    ensures StoreLookup(table[Normalize(domain) := EncodeRow(ip)], StoreCandidates(Normalize(q)), NoFault)
         == Ok(Some(ip))
  {
    FirstHitAt(table[Normalize(domain) := EncodeRow(ip)], StoreCandidates(Normalize(q)), 0);
  }

  /** After `set(domain, ip)`, the exact lookup of the normalised name reads
      `ip` back from the four octet columns. */
  lemma ExactMatchAfterSet(table: map<string, Row>, domain: string, ip: Ipv4)
    ensures GetExactMatch(table[Normalize(domain) := EncodeRow(ip)], Normalize(domain), false) == Ok(Some(ip))
  {
  }

  /** After `remove(domain)`, a name with the same normal form is answered by
      its wildcard candidates alone: none stored means no answer. */
  lemma StoreResolveAfterRemove(table: map<string, Row>, domain: string, q: string)
    requires Normalize(q) == Normalize(domain)
    requires forall j :: 1 <= j < |StoreCandidates(Normalize(q))| ==> StoreCandidates(Normalize(q))[j] !in table
    ensures StoreLookup(table - {Normalize(domain)}, StoreCandidates(Normalize(q)), NoFault) == Ok(None)
  {
    var keys := StoreCandidates(Normalize(q));
    var t := table - {Normalize(domain)};
    forall j | 0 <= j < |keys| ensures keys[j] !in t {
      if j > 0 {
        assert keys[j] !in table;
      }
    }
  }
}
