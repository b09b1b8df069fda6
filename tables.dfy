/** Facts about string-keyed tables shared by both domain tables: the first key
    of a candidate list that a table holds, listings of a table's entries, and
    the ascending order the persistent table lists its rows in. */
module Tables {
  import opened Common

  /** The index of the first of `keys` present in `m`: the early-return search
      over candidate keys, one lookup per key, that both resolvers perform. */
  function FirstHit<V>(m: map<string, V>, keys: seq<string>): (r: Option<nat>)
    ensures r.Some? ==> r.value < |keys| && keys[r.value] in m
    ensures r.Some? ==> forall j :: 0 <= j < r.value ==> keys[j] !in m
    ensures r.None? <==> forall j :: 0 <= j < |keys| ==> keys[j] !in m
  {
    if |keys| == 0 then None
    else if keys[0] in m then Some(0)
    else match FirstHit(m, keys[1..])
      case None => None
      case Some(j) => Some(j + 1)
  }

  /** A present key with no present key before it is the first hit. */
  lemma FirstHitAt<V>(m: map<string, V>, keys: seq<string>, j: nat)
    requires j < |keys| && keys[j] in m
    requires forall i :: 0 <= i < j ==> keys[i] !in m
    ensures FirstHit(m, keys) == Some(j)
  {
  }

  /** The first hit depends only on which keys the table holds, not on its values. */
  lemma FirstHitSameKeys<V, W>(m: map<string, V>, n: map<string, W>, keys: seq<string>)
    requires m.Keys == n.Keys
    ensures FirstHit(m, keys) == FirstHit(n, keys)
  {
    var a, b := FirstHit(m, keys), FirstHit(n, keys);
    if a.Some? && b.Some? {
      assert keys[a.value] in n && keys[b.value] in m;
    }
  }

  /** `r` lists every entry of `m` exactly once, in some order. */
  ghost predicate IsListing<V>(r: seq<(string, V)>, m: map<string, V>)
  {
    && |r| == |m|
    && (forall i :: 0 <= i < |r| ==> r[i].0 in m && m[r[i].0] == r[i].1)
    && (forall i, j :: 0 <= i < j < |r| ==> r[i].0 != r[j].0)
  }

  /** The names a listing mentions. */
  function KeysOf<V>(r: seq<(string, V)>): (keys: set<string>)
  {
    set i | 0 <= i < |r| :: r[i].0
  }

  lemma {:induction false} DistinctKeysCount<V>(r: seq<(string, V)>)
    requires forall i, j :: 0 <= i < j < |r| ==> r[i].0 != r[j].0
    ensures |KeysOf(r)| == |r|
  {
    if |r| > 0 {
      var init := r[..|r| - 1];
      DistinctKeysCount(init);
      assert KeysOf(r) == KeysOf(init) + {r[|r| - 1].0};
      assert r[|r| - 1].0 !in KeysOf(init);
    }
  }

  /** A listing holds every entry of the table. */
  lemma ListingCovers<V>(r: seq<(string, V)>, m: map<string, V>)
    requires IsListing(r, m)
    ensures KeysOf(r) == m.Keys
    ensures forall k :: k in m ==> exists i :: 0 <= i < |r| && r[i] == (k, m[k])
  {
    DistinctKeysCount(r);
    assert KeysOf(r) <= m.Keys;
    assert |m.Keys - KeysOf(r)| == |m.Keys| - |KeysOf(r)| == 0;
    forall k | k in m
      ensures exists i :: 0 <= i < |r| && r[i] == (k, m[k])
    {
      assert k in KeysOf(r);
      var i :| 0 <= i < |r| && r[i].0 == k;
      assert r[i] == (k, m[k]);
    }
  }

  /** Code-point lexicographic order on strings, which for UTF-8 text is the
      byte order SQLite's default BINARY collation sorts by. */
  predicate LexLess(a: string, b: string)
  {
    |b| > 0 && (|a| == 0 || a[0] < b[0] || (a[0] == b[0] && LexLess(a[1..], b[1..])))
  }

  lemma {:induction false} LexLessIrreflexive(a: string)
    ensures !LexLess(a, a)
  {
    if |a| > 0 { LexLessIrreflexive(a[1..]); }
  }

  lemma {:induction false} LexLessTransitive(a: string, b: string, c: string)
    requires LexLess(a, b) && LexLess(b, c)
    ensures LexLess(a, c)
  {
    if |a| > 0 && a[0] == b[0] && b[0] == c[0] {
      LexLessTransitive(a[1..], b[1..], c[1..]);
    }
  }

  lemma {:induction false} LexLessTotal(a: string, b: string)
    requires a != b
    ensures LexLess(a, b) || LexLess(b, a)
  {
    if |a| > 0 && |b| > 0 && a[0] == b[0] {
      assert a == [a[0]] + a[1..] && b == [b[0]] + b[1..];
      LexLessTotal(a[1..], b[1..]);
    }
  }

  /** The keys of `r` are strictly ascending. */
  predicate Ascending<V>(r: seq<(string, V)>)
  {
    forall i, j :: 0 <= i < j < |r| ==> LexLess(r[i].0, r[j].0)
  }

  /** Every finite non-empty set of strings has a least element. */
  lemma {:induction false} LeastKey(s: set<string>) returns (k: string)
    requires s != {}
    ensures k in s && forall x :: x in s && x != k ==> LexLess(k, x)
    decreases |s|
  {
    var y :| y in s;
    if s == {y} {
      k := y;
    } else {
      var k' := LeastKey(s - {y});
      if LexLess(y, k') {
        k := y;
        forall x | x in s && x != k ensures LexLess(k, x) {
          if x != k' { LexLessTransitive(y, k', x); }
        }
      } else {
        LexLessTotal(y, k');
        k := k';
      }
    }
  }

  /** Every table has an ascending listing: the rows `ORDER BY domain` returns. */
  lemma {:induction false} AscendingListingExists<V>(m: map<string, V>)
    ensures exists r :: IsListing(r, m) && Ascending(r)
    decreases |m|
  {
    if |m| == 0 {
      assert IsListing([], m) && Ascending<V>([]);
    } else {
      var k := LeastKey(m.Keys);
      var rest := m - {k};
      AscendingListingExists(rest);
      var r' :| IsListing(r', rest) && Ascending(r');
      var r := [(k, m[k])] + r';
      forall i | 0 < i < |r| ensures LexLess(k, r[i].0) {
        assert r[i] == r'[i - 1];
      }
      assert IsListing(r, m);
    }
  }

  /** The first entry of an ascending listing has the least key of the table. */
  lemma AscendingHeadIsLeast<V>(r: seq<(string, V)>, m: map<string, V>, k: string)
    requires IsListing(r, m) && Ascending(r) && |r| > 0
    requires k in m && k != r[0].0
    ensures LexLess(r[0].0, k)
  {
    ListingCovers(r, m);
    var i :| 0 <= i < |r| && r[i] == (k, m[k]);
  }

  /** Dropping the first entry of an ascending listing lists the rest of the table. */
  lemma AscendingTail<V>(r: seq<(string, V)>, m: map<string, V>)
    requires IsListing(r, m) && Ascending(r) && |r| > 0
    ensures IsListing(r[1..], m - {r[0].0}) && Ascending(r[1..])
  {
    var k := r[0].0;
    forall i | 0 <= i < |r| - 1 ensures r[1..][i].0 != k {
      assert LexLess(k, r[i + 1].0);
      LexLessIrreflexive(k);
    }
  }

  /** An ascending listing of a table is unique. */
  lemma {:induction false} AscendingListingUnique<V>(r1: seq<(string, V)>, r2: seq<(string, V)>, m: map<string, V>)
    requires IsListing(r1, m) && Ascending(r1)
    requires IsListing(r2, m) && Ascending(r2)
    ensures r1 == r2
    decreases |m|
  {
    if |m| > 0 {
      var k1, k2 := r1[0].0, r2[0].0;
      if k1 != k2 {
        AscendingHeadIsLeast(r1, m, k2);
        AscendingHeadIsLeast(r2, m, k1);
        LexLessTransitive(k1, k2, k1);
        LexLessIrreflexive(k1);
      }
      AscendingTail(r1, m);
      AscendingTail(r2, m);
      AscendingListingUnique(r1[1..], r2[1..], m - {k1});
      assert r1 == [r1[0]] + r1[1..] && r2 == [r2[0]] + r2[1..];
    }
  }
}
