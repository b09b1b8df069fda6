/** The in-memory domain table (`DomainMap` in felix-dns/src/domain_map.rs):
    a map from domain name to IPv4 address with exact and wildcard-suffix lookup. */
module DomainTable {
  import opened Common
  import opened DomainNames
  import opened Tables

  /** The keys `DomainMap::resolve` consults for `qname`, in order: the
      normalised name, then `"*." + suffix` for every suffix of the RAW query
      that follows a dot, the most specific (longest) first. */
  function MapCandidates(qname: string): (keys: seq<string>)
    ensures |keys| == 1 + |DotSuffixes(qname)|
    ensures keys[0] == Normalize(qname)
    ensures keys[1..] == WildcardKeys(DotSuffixes(qname))
  {
    [Normalize(qname)] + WildcardKeys(DotSuffixes(qname))
  }

  /** What `DomainMap::resolve` answers for `qname` against table `m`:
      the address of the first candidate key present, if any. */
  function Lookup(m: map<string, Ipv4>, qname: string): (r: Option<Ipv4>)
    ensures r.Some? ==> r.value in m.Values
    ensures Normalize(qname) in m ==> r == Some(m[Normalize(qname)])
  {
    var keys := MapCandidates(qname);
    match FirstHit(m, keys)
    case Some(j) => Some(m[keys[j]])
    case None => None
  }

  /** There is one candidate key per label of the raw query. */
  lemma CandidateCount(qname: string)
    ensures |MapCandidates(qname)| == |Split(qname, '.')|
  {
    DotSuffixCount(qname);
  }

  /** The wildcard key `resolve` builds from `labels[i + 1..]` is candidate `i + 1`. */
  lemma CandidateFromLabels(qname: string, i: nat)
    requires i + 1 < |Split(qname, '.')|
    ensures i + 1 < |MapCandidates(qname)|
    ensures "*." + Join(Split(qname, '.')[i + 1..], '.') == MapCandidates(qname)[i + 1]
  {
    var keys := MapCandidates(qname);
    JoinedLabelSuffix(qname, i);
    assert keys[i + 1] == keys[1..][i] == WildcardKey(DotSuffixes(qname)[i]);
  }

  /** Candidate `j + 1` is the wildcard key of the `j`-th dot suffix. */
  lemma WildcardCandidate(qname: string, j: nat)
    requires j < |DotSuffixes(qname)|
    ensures MapCandidates(qname)[j + 1] == WildcardKey(DotSuffixes(qname)[j])
  {
    var keys := MapCandidates(qname);
    assert keys[j + 1] == keys[1..][j];
  }

  /** The lookups `resolve` performs from candidate `from` on: the first
      present key ends the search. */
  function Scan(m: map<string, Ipv4>, keys: seq<string>, from: nat): (r: Option<Ipv4>)
    requires from <= |keys|
    decreases |keys| - from
  {
    if from == |keys| then None
    else if keys[from] in m then Some(m[keys[from]])
    else Scan(m, keys, from + 1)
  }

  /** Scanning the candidates one by one gives `Lookup`. */
  lemma {:induction false} ScanMeaning(m: map<string, Ipv4>, keys: seq<string>, from: nat)
    requires from <= |keys|
    requires forall j :: 0 <= j < from ==> keys[j] !in m
    ensures Scan(m, keys, from) == match FirstHit(m, keys)
      case Some(j) => Some(m[keys[j]])
      case None => None
    decreases |keys| - from
  {
    if from < |keys| {
      if keys[from] in m {
        FirstHitAt(m, keys, from);
      } else {
        ScanMeaning(m, keys, from + 1);
      }
    }
  }

  class DomainMap {
    /** The `map: HashMap<String, Ipv4Addr>` field. */
    var entries: map<string, Ipv4>

    /** `DomainMap::new`: an empty table. */
    constructor ()
      ensures entries == map[]
    {
      entries := map[];
    }

    /** `set`: lower-case the name, drop one trailing dot, insert or overwrite. */
    method Set(domain: string, ip: Ipv4)
      modifies this
      ensures entries == old(entries)[Normalize(domain) := ip]
    {
      var k := ToAsciiLowercase(domain);
      if EndsWithDot(k) {
        k := k[..|k| - 1];
      }
      entries := entries[k := ip];
    }

    /** `remove`: the dot-stripped key is computed but the key removed is the
        lower-cased name as given, trailing dot included. */
    method Remove(domain: string)
      modifies this
      ensures entries == old(entries) - {ToAsciiLowercase(domain)}
    {
      entries := entries - {ToAsciiLowercase(domain)};
    }

    /** `resolve`: exact lookup of the normalised name, then one wildcard key
        per label suffix of the raw query, with an early return on the first hit. */
    method Resolve(qname: string) returns (r: Option<Ipv4>)
      ensures r == Lookup(entries, qname)
    {
      var lc := ToAsciiLowercase(qname);
      if EndsWithDot(lc) {
        lc := lc[..|lc| - 1];
      }
      ghost var keys := MapCandidates(qname);
      ScanMeaning(entries, keys, 0);
      if lc in entries {
        return Some(entries[lc]);
      }
      var labels := Split(qname, '.');
      CandidateCount(qname);
      for i := 0 to |labels| - 1
        invariant Scan(entries, keys, i + 1) == Scan(entries, keys, 0)
      {
        var suffix := Join(labels[i + 1..], '.');
        var wildcard := "*." + suffix;
        CandidateFromLabels(qname, i);
        if wildcard in entries {
          return Some(entries[wildcard]);
        }
      }
      return None;
    }

    /** `list`: every (key, address) pair once, in the table's iteration order. */
    method List() returns (r: seq<(string, Ipv4)>)
      ensures IsListing(r, entries)
    {
      r := [];
      var rest := entries.Keys;
      while rest != {}
        invariant rest <= entries.Keys
        invariant |r| + |rest| == |entries|
        invariant forall i :: 0 <= i < |r| ==> r[i].0 in entries && r[i].0 !in rest && entries[r[i].0] == r[i].1
        invariant forall i, j :: 0 <= i < j < |r| ==> r[i].0 != r[j].0
        decreases |rest|
      {
        var k :| k in rest;
        r := r + [(k, entries[k])];
        rest := rest - {k};
      }
    }
  }

  // ---------------------------------------------------------------------------
  // Properties of the table operations

  /** `set` overwrites one key: that key now maps to `ip`, every other key is
      unchanged, and the table grows by at most one key. */
  lemma SetOverwrites(m: map<string, Ipv4>, domain: string, ip: Ipv4)
    ensures var m' := m[Normalize(domain) := ip];
      && m'[Normalize(domain)] == ip
      && m'.Keys == m.Keys + {Normalize(domain)}
      && (forall k :: k in m && k != Normalize(domain) ==> k in m' && m'[k] == m[k])
      && |m'| <= |m| + 1
  {
    var m' := m[Normalize(domain) := ip];
    assert m'.Keys == m.Keys + {Normalize(domain)};
  }

  /** After `set(name, ip)` every query that normalises like `name` resolves to `ip`. */
  lemma ResolveAfterSet(m: map<string, Ipv4>, name: string, ip: Ipv4, q: string)
    requires Normalize(q) == Normalize(name)
    ensures Lookup(m[Normalize(name) := ip], q) == Some(ip)
  {
  }

  /** `remove` deletes exactly the lower-cased key; removing an absent key changes nothing. */
  lemma RemoveDeletesLowercasedKey(m: map<string, Ipv4>, domain: string)
    ensures var m' := m - {ToAsciiLowercase(domain)};
      && ToAsciiLowercase(domain) !in m'
      && (forall k :: k in m && k != ToAsciiLowercase(domain) ==> k in m' && m'[k] == m[k])
      && (ToAsciiLowercase(domain) !in m ==> m' == m)
  {
  }

  /** Because `remove` does not strip the trailing dot, removing `"name."` leaves
      the entry that `set("name.")` stored, and it still resolves. */
  lemma RemoveKeepsDotStrippedKey(m: map<string, Ipv4>, domain: string)
    requires EndsWithDot(domain) && Normalize(domain) in m
    ensures Normalize(domain) in m - {ToAsciiLowercase(domain)}
    ensures Lookup(m - {ToAsciiLowercase(domain)}, domain) == Some(m[Normalize(domain)])
  {
    assert |Normalize(domain)| < |ToAsciiLowercase(domain)|;
  }

  /** Removing a name without a trailing dot makes it miss, unless a wildcard covers it. */
  lemma RemoveThenResolveMisses(m: map<string, Ipv4>, domain: string)
    requires !EndsWithDot(domain)
    requires forall s :: s in DotSuffixes(domain) ==> WildcardKey(s) !in m
    ensures Lookup(m - {ToAsciiLowercase(domain)}, domain) == None
  {
    var m' := m - {ToAsciiLowercase(domain)};
    var keys := MapCandidates(domain);
    assert !EndsWithDot(ToAsciiLowercase(domain));
    forall j | 0 <= j < |keys| ensures keys[j] !in m' {
      if j > 0 {
        assert DotSuffixes(domain)[j - 1] in DotSuffixes(domain);
      }
    }
  }

  /** An exact (normalised) entry wins over every wildcard. */
  lemma ResolveExactFirst(m: map<string, Ipv4>, q: string)
    requires Normalize(q) in m
    ensures Lookup(m, q) == Some(m[Normalize(q)])
  {
  }

  /** On an exact miss the wildcard keys are tried most specific first and
      the first one present answers. */
  lemma ResolveWildcardInOrder(m: map<string, Ipv4>, q: string, i: nat)
    requires Normalize(q) !in m
    requires i < |DotSuffixes(q)| && WildcardKey(DotSuffixes(q)[i]) in m
    requires forall j :: 0 <= j < i ==> WildcardKey(DotSuffixes(q)[j]) !in m
    ensures Lookup(m, q) == Some(m[WildcardKey(DotSuffixes(q)[i])])
  {
    NoCandidateBefore(m, q, i);
    WildcardCandidate(q, i);
    FirstHitAt(m, MapCandidates(q), i + 1);
  }

  /** None of the first `i + 1` candidates is present when neither the normal
      form nor the first `i` wildcard keys are. */
  lemma NoCandidateBefore(m: map<string, Ipv4>, q: string, i: nat)
    requires Normalize(q) !in m && i <= |DotSuffixes(q)|
    requires forall j :: 0 <= j < i ==> WildcardKey(DotSuffixes(q)[j]) !in m
    ensures forall j :: 0 <= j < i + 1 ==> MapCandidates(q)[j] !in m
  {
    forall j | 0 <= j < i + 1 ensures MapCandidates(q)[j] !in m {
      if j > 0 { WildcardCandidate(q, j - 1); }
    }
  }

  /** `resolve` answers exactly when some candidate key is present, and then
      with the address of one of them. */
  lemma ResolveNoneIff(m: map<string, Ipv4>, q: string)
    ensures Lookup(m, q) == None <==>
      (Normalize(q) !in m && forall s :: s in DotSuffixes(q) ==> WildcardKey(s) !in m)
    ensures Lookup(m, q).Some? ==>
      exists k :: k in MapCandidates(q) && k in m && m[k] == Lookup(m, q).value
  {
    var keys := MapCandidates(q);
    CandidatesAbsent(m, q);
    if FirstHit(m, keys).Some? {
      assert keys[FirstHit(m, keys).value] in keys;
    }
  }

  /** No candidate is present exactly when neither the normal form nor any
      wildcard key of a dot suffix is. */
  lemma CandidatesAbsent(m: map<string, Ipv4>, q: string)
    ensures (forall j :: 0 <= j < |MapCandidates(q)| ==> MapCandidates(q)[j] !in m) <==>
      (Normalize(q) !in m && forall s :: s in DotSuffixes(q) ==> WildcardKey(s) !in m)
  {
    var keys, sfx := MapCandidates(q), DotSuffixes(q);
    if forall j :: 0 <= j < |keys| ==> keys[j] !in m {
      forall s | s in sfx ensures WildcardKey(s) !in m {
        var i :| 0 <= i < |sfx| && sfx[i] == s;
        WildcardCandidate(q, i);
      }
    }
    if Normalize(q) !in m && forall s :: s in sfx ==> WildcardKey(s) !in m {
      forall j | 0 < j < |keys| ensures keys[j] !in m {
        WildcardCandidate(q, j - 1);
        assert sfx[j - 1] in sfx;
      }
    }
  }

  /** A single-label query never hits a wildcard key. */
  lemma ResolveSingleLabel(m: map<string, Ipv4>, q: string)
    requires '.' !in q
    ensures Lookup(m, q) == if Normalize(q) in m then Some(m[Normalize(q)]) else None
  {
    DotSuffixesOfSingleLabel(q);
  }

  /** `"*." + q` never answers `q` itself: `"*.example.com"` does not resolve
      `"example.com"`. */
  lemma ResolveBareSuffixMisses(q: string, ip: Ipv4)
    ensures Lookup(map[WildcardKey(q) := ip], q) == None
  {
    var m := map[WildcardKey(q) := ip];
    var keys := MapCandidates(q);
    forall j | 0 <= j < |keys| ensures keys[j] !in m {
      if j > 0 {
        assert |DotSuffixes(q)[j - 1]| < |q|;
      }
    }
  }

  /** A wildcard entry answers any name one label below its suffix when there is
      no exact entry: `"*.example.com"` resolves `"api.example.com"`. */
  lemma ResolveWildcardOneLevel(m: map<string, Ipv4>, first: string, suffix: string)
    requires '.' !in first
    requires Normalize(first + "." + suffix) !in m
    requires WildcardKey(suffix) in m
    ensures Lookup(m, first + "." + suffix) == Some(m[WildcardKey(suffix)])
  {
    DotSuffixesAfterLabel(first, suffix);
    ResolveWildcardInOrder(m, first + "." + suffix, 0);
  }

  /** ... and any name two labels below it when the intermediate wildcard is
      absent: `"*.example.com"` resolves `"deep.sub.example.com"`. */
  lemma ResolveWildcardTwoLevels(m: map<string, Ipv4>, l1: string, l2: string, suffix: string)
    requires '.' !in l1 && '.' !in l2
    requires Normalize(l1 + "." + l2 + "." + suffix) !in m
    requires WildcardKey(l2 + "." + suffix) !in m
    requires WildcardKey(suffix) in m
    ensures Lookup(m, l1 + "." + l2 + "." + suffix) == Some(m[WildcardKey(suffix)])
  {
    var q := l1 + "." + l2 + "." + suffix;
    DotSuffixesAfterTwoLabels(l1, l2, suffix);
    var sfx := DotSuffixes(q);
    assert WildcardKey(sfx[0]) !in m && WildcardKey(sfx[1]) in m;
    ResolveWildcardInOrder(m, q, 1);
  }

  /** Wildcard keys come from the raw query: with only `"*.dev"` stored,
      `"foo.dev"` hits ... */
  lemma ResolveLowercaseWildcardHit(ip: Ipv4)
    ensures Lookup(map["*.dev" := ip], "foo.dev") == Some(ip)
  {
    assert WildcardKey("dev") == "*.dev";
    assert Normalize("foo.dev") == "foo.dev";
    assert "foo.dev" == "foo" + "." + "dev";
    ResolveWildcardOneLevel(map["*.dev" := ip], "foo", "dev");
  }

  /** A two-label query consults exactly two keys: its normalised name, then
      the wildcard of its last label AS GIVEN. */
  lemma ResolveTwoLabels(m: map<string, Ipv4>, first: string, last: string)
    requires '.' !in first && '.' !in last
    ensures Lookup(m, first + "." + last) ==
      if Normalize(first + "." + last) in m then Some(m[Normalize(first + "." + last)])
      else if WildcardKey(last) in m then Some(m[WildcardKey(last)])
      else None
  {
    var q := first + "." + last;
    TwoLabelCandidates(first, last);
    var keys := MapCandidates(q);
    if Normalize(q) in m {
      FirstHitAt(m, keys, 0);
    } else if WildcardKey(last) in m {
      FirstHitAt(m, keys, 1);
    } else {
      assert FirstHit(m, keys) == None;
    }
  }

  /** The candidates of `first.last` are its normalised name and `"*.last"`. */
  lemma TwoLabelCandidates(first: string, last: string)
    requires '.' !in first && '.' !in last
    ensures MapCandidates(first + "." + last) == [Normalize(first + "." + last), WildcardKey(last)]
  {
    DotSuffixesAfterLabel(first, last);
    DotSuffixesOfSingleLabel(last);
    var keys := MapCandidates(first + "." + last);
    assert keys[1] == keys[1..][0];
  }

  /** The normalised form of a name whose first label does not start with `'*'`
      is not a wildcard key. */
  lemma NormalizedIsNotWildcard(q: string, first: string, suffix: string)
    requires |first| > 0 && first[0] != '*'
    requires q == first + "." + suffix
    ensures |Normalize(q)| > 0 && Normalize(q)[0] != '*'
  {
    var lc := ToAsciiLowercase(q);
    assert lc[0] == LowerChar(first[0]);
    assert Normalize(q)[0] == lc[0];
  }

  /** Wildcard lookup is case-sensitive in the suffix: with only `"*.dev"`
      stored, `"foo.dev"` is answered (see `ResolveLowercaseWildcardHit`) but
      `"foo.DEV"` is not, although it normalises to `"foo.dev"`. */
  lemma ResolveUppercaseWildcardMiss(first: string, last: string, i: nat, ip: Ipv4)
    requires '.' !in first && '.' !in last
    requires |first| > 0 && first[0] != '*'
    requires i < |last| && IsAsciiUpper(last[i])
    ensures Lookup(map[WildcardKey(ToAsciiLowercase(last)) := ip], first + "." + last) == None
  {
    var q, k := first + "." + last, WildcardKey(ToAsciiLowercase(last));
    WildcardKeyIsCaseSensitive(last, i);
    NormalizedIsNotWildcard(q, first, last);
    assert k[0] == '*' && Normalize(q) != k;
    ResolveTwoLabels(map[k := ip], first, last);
  }

  /** A suffix with an upper-case letter has a different wildcard key from its lower-cased form. */
  lemma WildcardKeyIsCaseSensitive(last: string, i: nat)
    requires i < |last| && IsAsciiUpper(last[i])
    ensures WildcardKey(last) != WildcardKey(ToAsciiLowercase(last))
  {
    var lower := ToAsciiLowercase(last);
    assert lower[i] == LowerChar(last[i]) != last[i];
    var a, b := WildcardKey(last), WildcardKey(lower);
    assert a[i + 2] == last[i];
    assert b[i + 2] == lower[i];
  }

  /** A fully qualified query (one trailing dot) never reaches a wildcard
      entry: the wildcard keys of `"foo.dev."` are `"*.dev."` and `"*."`, so
      `"*.dev"` does not answer it. Exact entries do not have this problem
      (see `ResolveAfterSet`). */
  lemma ResolveTrailingDotWildcardMiss(first: string, last: string, ip: Ipv4)
    requires '.' !in first && '.' !in last
    requires |first| > 0 && first[0] != '*' && |last| > 0
    ensures Lookup(map[WildcardKey(last) := ip], first + "." + last + ".") == None
  {
    var q := first + "." + last + ".";
    var m := map[WildcardKey(last) := ip];
    TrailingDotCandidates(first, last);
    NormalizedIsNotWildcard(q, first, last + ".");
    var keys := MapCandidates(q);
    assert WildcardKey(last)[0] == '*' && keys[0] !in m;
    assert |keys[1]| == |last| + 3 && keys[1] !in m;
    assert |keys[2]| == 2 && keys[2] !in m;
    forall j | 0 <= j < |keys| ensures keys[j] !in m {
      assert j == 0 || j == 1 || j == 2;
    }
  }

  /** The candidates of `first.last.` are its normalised name, `"*.last."` and `"*."`. */
  lemma TrailingDotCandidates(first: string, last: string)
    requires '.' !in first && '.' !in last
    ensures MapCandidates(first + "." + last + ".") ==
      [Normalize(first + "." + last + "."), WildcardKey(last + "."), WildcardKey("")]
  {
    var q := first + "." + last + ".";
    DotSuffixesOfFullyQualified(first, last);
    var keys := MapCandidates(q);
    assert keys[1] == keys[1..][0];
    assert keys[2] == keys[1..][1];
  }
}
