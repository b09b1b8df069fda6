/** Domain-name text handling shared by both domain tables: ASCII lower-casing,
    stripping one trailing dot, splitting into labels on '.', joining them back,
    and the wildcard keys built from label suffixes. */
module DomainNames {

  predicate IsAsciiUpper(c: char) { 'A' <= c <= 'Z' }

  /** `char::to_ascii_lowercase`: 'A'..'Z' become 'a'..'z', everything else is kept. */
  function LowerChar(c: char): (r: char)
    ensures !IsAsciiUpper(r)
    ensures IsAsciiUpper(c) ==> r as int == c as int + 32
    ensures !IsAsciiUpper(c) ==> r == c
  {
    if IsAsciiUpper(c) then (c as int + 32) as char else c
  }

  /** `str::to_ascii_lowercase` (and `make_ascii_lowercase` in place). */
  function ToAsciiLowercase(s: string): (r: string)
    ensures |r| == |s|
    ensures forall i {:trigger r[i]} :: 0 <= i < |s| ==> r[i] == LowerChar(s[i])
  {
    if |s| == 0 then [] else [LowerChar(s[0])] + ToAsciiLowercase(s[1..])
  }

  predicate EndsWithDot(s: string) { |s| > 0 && s[|s| - 1] == '.' }

  /** `if s.ends_with('.') { s.pop(); }`: drops exactly one trailing dot. */
  function StripTrailingDot(s: string): (r: string)
    ensures EndsWithDot(s) ==> r + "." == s
    ensures !EndsWithDot(s) ==> r == s
  {
    if EndsWithDot(s) then s[..|s| - 1] else s
  }

  /** The canonical form of a domain name used as a table key:
      lower-cased, then one trailing dot removed. */
  function Normalize(s: string): (r: string)
    ensures |r| <= |s|
    ensures forall i :: 0 <= i < |r| ==> !IsAsciiUpper(r[i])
  {
    StripTrailingDot(ToAsciiLowercase(s))
  }

  /** Two names that differ only in the case of ASCII letters. */
  predicate SameIgnoringAsciiCase(s: string, t: string)
  {
    |s| == |t| && forall i :: 0 <= i < |s| ==> LowerChar(s[i]) == LowerChar(t[i])
  }

  /** Case variants of a name normalise to the same key. */
  lemma NormalizeIgnoresCase(s: string, t: string)
    requires SameIgnoringAsciiCase(s, t)
    ensures Normalize(s) == Normalize(t)
  {
    assert ToAsciiLowercase(s) == ToAsciiLowercase(t);
  }

  /** A name and the same name with one trailing dot added normalise to the same key. */
  lemma NormalizeTrailingDot(s: string)
    requires !EndsWithDot(s)
    ensures Normalize(s + ".") == Normalize(s)
  {
    assert ToAsciiLowercase(s + ".") == ToAsciiLowercase(s) + ".";
  }

  /** Lower-casing works character by character, so it distributes over concatenation. */
  lemma LowercaseConcat(a: string, b: string)
    ensures ToAsciiLowercase(a + b) == ToAsciiLowercase(a) + ToAsciiLowercase(b)
  {
    var l, r := ToAsciiLowercase(a + b), ToAsciiLowercase(a) + ToAsciiLowercase(b);
    forall i | 0 <= i < |l| ensures l[i] == r[i] {
      if i < |a| {
        assert (a + b)[i] == a[i];
      } else {
        assert (a + b)[i] == b[i - |a|];
      }
    }
  }

  /** Lower-casing neither adds nor removes dots. */
  lemma LowercaseKeepsDots(s: string)
    ensures '.' in ToAsciiLowercase(s) <==> '.' in s
  {
    var l := ToAsciiLowercase(s);
    if '.' in l {
      var i :| 0 <= i < |l| && l[i] == '.';
      assert s[i] == '.';
    }
    if '.' in s {
      var i :| 0 <= i < |s| && s[i] == '.';
      assert l[i] == '.';
    }
  }

  lemma LowercaseTwoLabels(first: string, last: string)
    ensures ToAsciiLowercase(first + "." + last) == ToAsciiLowercase(first) + "." + ToAsciiLowercase(last)
  {
    LowercaseConcat(first, ".");
    LowercaseConcat(first + ".", last);
    assert ToAsciiLowercase(".") == ".";
  }

  /** The normal form of `first.last` (with or without one trailing dot) is
      the lower-cased labels joined by a dot. */
  lemma NormalizeTwoLabels(first: string, last: string)
    requires '.' !in first && '.' !in last && |last| > 0
    ensures Normalize(first + "." + last) == ToAsciiLowercase(first) + "." + ToAsciiLowercase(last)
    ensures Normalize(first + "." + last + ".") == ToAsciiLowercase(first) + "." + ToAsciiLowercase(last)
    ensures '.' !in ToAsciiLowercase(first) && '.' !in ToAsciiLowercase(last)
  {
    var q := first + "." + last;
    var lower := ToAsciiLowercase(last);
    LowercaseTwoLabels(first, last);
    LowercaseKeepsDots(first);
    LowercaseKeepsDots(last);
    assert q[|q| - 1] == last[|last| - 1];
    assert lower[|lower| - 1] != '.';
    assert !EndsWithDot(ToAsciiLowercase(q));
    NormalizeTrailingDot(q);
  }

  /** The position of the first `c` in `s`. */
  function FirstIndex(s: string, c: char): (p: nat)
    requires c in s
    ensures p < |s| && s[p] == c && c !in s[..p]
  {
    if s[0] == c then 0
    else
      var q := FirstIndex(s[1..], c);
      assert s[..q + 1] == [s[0]] + s[1..][..q];
      q + 1
  }

  /** Any position of `c` with no earlier `c` is the first. */
  lemma FirstIndexIs(s: string, c: char, p: nat)
    requires p < |s| && s[p] == c && c !in s[..p]
    ensures FirstIndex(s, c) == p
  {
  }

  /** `s.split(sep).collect()`: the pieces between separators, always at least one. */
  function Split(s: string, sep: char): (labels: seq<string>)
    ensures |labels| >= 1
    ensures forall i :: 0 <= i < |labels| ==> sep !in labels[i]
    decreases |s|
  {
    if sep !in s then [s]
    else
      var p := FirstIndex(s, sep);
      [s[..p]] + Split(s[p + 1..], sep)
  }

  /** `labels.join(sep)`: the labels in order with one separator between
      neighbours, so the first label opens the text. */
  function Join(labels: seq<string>, sep: char): (s: string)
    ensures |labels| == 0 ==> s == ""
    ensures |labels| >= 1 ==> labels[0] <= s
    ensures |labels| >= 2 ==> |labels[0]| < |s| && s[|labels[0]|] == sep
  {
    if |labels| == 0 then ""
    else if |labels| == 1 then labels[0]
    else labels[0] + [sep] + Join(labels[1..], sep)
  }

  /** Joining the pieces of a split gives the original text back. */
  lemma {:induction false} JoinSplit(s: string, sep: char)
    ensures Join(Split(s, sep), sep) == s
    decreases |s|
  {
    if sep in s {
      var p := FirstIndex(s, sep);
      var rest := s[p + 1..];
      var tail := Split(rest, sep);
      assert Split(s, sep) == [s[..p]] + tail;
      JoinSplit(rest, sep);
      assert ([s[..p]] + tail)[1..] == tail;
      assert s == s[..p] + [sep] + rest;
    }
  }

  /** Splitting the join of separator-free labels gives the labels back. */
  lemma {:induction false} SplitJoin(labels: seq<string>, sep: char)
    requires |labels| >= 1
    requires forall i :: 0 <= i < |labels| ==> sep !in labels[i]
    ensures Split(Join(labels, sep), sep) == labels
  {
    if |labels| > 1 {
      SplitAtFirst(labels[0], Join(labels[1..], sep), sep);
      SplitJoin(labels[1..], sep);
      assert labels == [labels[0]] + labels[1..];
    }
  }

  /** Splitting `l + sep + rest` for a separator-free `l` gives `l`, then the pieces of `rest`. */
  lemma SplitAtFirst(l: string, rest: string, sep: char)
    requires sep !in l
    ensures Split(l + [sep] + rest, sep) == [l] + Split(rest, sep)
  {
    var s := l + [sep] + rest;
    assert s[..|l|] == l;
    FirstIndexIs(s, sep, |l|);
    assert s[|l| + 1..] == rest;
  }

  /** The text after each '.' of `s`, in order of the dots: the first is the
      longest, and each is strictly shorter than `s`. */
  function DotSuffixes(s: string): (r: seq<string>)
    ensures forall i :: 0 <= i < |r| ==> |r[i]| < |s|
    decreases |s|
  {
    if '.' !in s then []
    else
      var p := FirstIndex(s, '.');
      [s[p + 1..]] + DotSuffixes(s[p + 1..])
  }

  /** A name with a first label `l` has `s` as its first dot suffix. */
  lemma DotSuffixesAfterLabel(l: string, s: string)
    requires '.' !in l
    ensures DotSuffixes(l + "." + s) == [s] + DotSuffixes(s)
  {
    var q := l + "." + s;
    assert q[..|l|] == l;
    FirstIndexIs(q, '.', |l|);
    assert q[|l| + 1..] == s;
  }

  /** A name with first labels `l1` and `l2` has `l2.s` and `s` as its first two dot suffixes. */
  lemma DotSuffixesAfterTwoLabels(l1: string, l2: string, s: string)
    requires '.' !in l1 && '.' !in l2
    ensures |DotSuffixes(l1 + "." + l2 + "." + s)| >= 2
    ensures DotSuffixes(l1 + "." + l2 + "." + s)[0] == l2 + "." + s
    ensures DotSuffixes(l1 + "." + l2 + "." + s)[1] == s
  {
    var rest := l2 + "." + s;
    assert l1 + "." + l2 + "." + s == l1 + "." + rest;
    DotSuffixesAfterLabel(l1, rest);
    DotSuffixesAfterLabel(l2, s);
  }

  /** A two-label name with a trailing dot has the suffixes `last.` and the empty one. */
  lemma DotSuffixesOfFullyQualified(first: string, last: string)
    requires '.' !in first && '.' !in last
    ensures DotSuffixes(first + "." + last + ".") == [last + ".", ""]
  {
    assert first + "." + last + "." == first + "." + (last + ".");
    DotSuffixesAfterLabel(first, last + ".");
    assert last + "." == last + "." + "";
    DotSuffixesAfterLabel(last, "");
  }

  /** A name without a dot has no suffixes to try. */
  lemma DotSuffixesOfSingleLabel(s: string)
    requires '.' !in s
    ensures DotSuffixes(s) == []
  {
  }

  /** There is one suffix fewer than there are labels. */
  lemma {:induction false} DotSuffixCount(s: string)
    ensures |DotSuffixes(s)| == |Split(s, '.')| - 1
    decreases |s|
  {
    if '.' in s {
      var p := FirstIndex(s, '.');
      DotSuffixCount(s[p + 1..]);
    }
  }

  /** `labels[i + 1..].join(".")` is the text after the (i+1)-th dot. */
  lemma {:induction false} JoinedLabelSuffix(s: string, i: nat)
    requires i + 1 < |Split(s, '.')|
    ensures i < |DotSuffixes(s)|
    ensures Join(Split(s, '.')[i + 1..], '.') == DotSuffixes(s)[i]
    decreases |s|
  {
    DotSuffixCount(s);
    var rest := LaterLabels(s, i);
    if i == 0 {
      JoinSplit(rest, '.');
    } else {
      JoinedLabelSuffix(rest, i - 1);
    }
  }

  /** The labels after the `i + 1`-th of `s` are those after the `i`-th of the
      text after its first dot (all of that text's labels when `i` is 0). */
  lemma LaterLabels(s: string, i: nat) returns (rest: string)
    requires i + 1 < |Split(s, '.')|
    ensures |rest| < |s|
    ensures i < |DotSuffixes(s)| && |DotSuffixes(s)| == |DotSuffixes(rest)| + 1
    ensures i == 0 ==> Split(s, '.')[i + 1..] == Split(rest, '.') && DotSuffixes(s)[i] == rest
    ensures i > 0 ==> i < |Split(rest, '.')| && Split(s, '.')[i + 1..] == Split(rest, '.')[i..]
    ensures i > 0 ==> DotSuffixes(s)[i] == DotSuffixes(rest)[i - 1]
  {
    rest := AfterFirstDot(s);
    DotSuffixCount(s);
    DotSuffixCount(rest);
    var pieces := Split(rest, '.');
    if i == 0 {
      assert Split(s, '.')[1..] == pieces;
    } else {
      assert Split(s, '.')[i + 1..] == pieces[i..];
    }
  }

  /** A name of more than one label is its first label, a dot and `rest`:
      the pieces and the suffixes of `rest` follow the first ones. */
  lemma AfterFirstDot(s: string) returns (rest: string)
    requires |Split(s, '.')| > 1
    ensures |rest| < |s|
    ensures Split(s, '.') == [Split(s, '.')[0]] + Split(rest, '.')
    ensures DotSuffixes(s) == [rest] + DotSuffixes(rest)
  {
    var p := FirstIndex(s, '.');
    rest := s[p + 1..];
  }

  /** `format!("*.{}", suffix)`. */
  function WildcardKey(suffix: string): (key: string)
    ensures |key| == |suffix| + 2 && key[0] == '*' && key[1] == '.'
    ensures key[2..] == suffix
  {
    "*." + suffix
  }

  function WildcardKeys(suffixes: seq<string>): (keys: seq<string>)
    ensures |keys| == |suffixes|
    ensures forall i :: 0 <= i < |suffixes| ==> keys[i] == WildcardKey(suffixes[i])
  {
    seq(|suffixes|, i requires 0 <= i < |suffixes| => WildcardKey(suffixes[i]))
  }
}
