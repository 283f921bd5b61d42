/** Substring search, splitting and joining with the semantics of
    QString::split (empty parts are kept) and QStringList::join. */
module Strings {
  import opened Wrappers

  /** `sub` occurs in `s` starting at index `k`. */
  predicate OccursAt(s: string, sub: string, k: nat)
  {
    k + |sub| <= |s| && s[k..k + |sub|] == sub
  }

  lemma OccursAtShift(s: string, sub: string, k: nat)
    requires |s| > 0 && k >= 1
    ensures OccursAt(s, sub, k) <==> OccursAt(s[1..], sub, k - 1)
  {
    if k + |sub| <= |s| {
      assert s[1..][k - 1..k - 1 + |sub|] == s[k..k + |sub|];
    }
  }

  /** Index of the first occurrence of `sub` in `s` (std::string::find). */
  function Find(s: string, sub: string): (r: Option<nat>)
    ensures r.Some? ==> OccursAt(s, sub, r.value)
    ensures r.Some? ==> forall j :: 0 <= j < r.value ==> !OccursAt(s, sub, j)
    ensures r.None? ==> forall j: nat :: !OccursAt(s, sub, j)
    decreases |s|
  {
    if |s| < |sub| then None
    else if s[..|sub|] == sub then Some(0)
    else
      var rest := Find(s[1..], sub);
      assert !OccursAt(s, sub, 0);
      forall j: nat | j >= 1 ensures OccursAt(s, sub, j) <==> OccursAt(s[1..], sub, j - 1) {
        OccursAtShift(s, sub, j);
      }
      match rest
      case None => None
      case Some(k) => Some(k + 1)
  }

  predicate Contains(s: string, sub: string)
  {
    Find(s, sub).Some?
  }

  /** QString::split(sep) with empty parts kept. */
  function Split(s: string, sep: string): (parts: seq<string>)
    requires |sep| > 0
    ensures |parts| >= 1
    decreases |s|
  {
    match Find(s, sep)
    case None => [s]
    case Some(k) => [s[..k]] + Split(s[k + |sep|..], sep)
  }

  /** QStringList::join(sep). */
  function Join(parts: seq<string>, sep: string): string
  {
    if |parts| == 0 then ""
    else if |parts| == 1 then parts[0]
    else parts[0] + sep + Join(parts[1..], sep)
  }

  /** A slice of a prefix is the same slice of the whole text. */
  lemma SliceOfPrefix(s: string, n: nat, i: nat, j: nat)
    requires i <= j <= n <= |s|
    ensures s[..n][i..j] == s[i..j]
  {
    assert forall m :: 0 <= m < j - i ==> s[..n][i..j][m] == s[i + m];
  }

  /** A text is its part before `k`, the `n` characters from `k`, and the
      rest. */
  lemma Around(s: string, k: nat, n: nat)
    requires k + n <= |s|
    ensures s == s[..k] + s[k..k + n] + s[k + n..]
  {
    assert forall m :: 0 <= m < |s| ==> (s[..k] + s[k..k + n] + s[k + n..])[m] == s[m];
  }

  lemma JoinCons(head: string, tail: seq<string>, sep: string)
    requires |tail| >= 1
    ensures Join([head] + tail, sep) == head + sep + Join(tail, sep)
  {
    assert ([head] + tail)[1..] == tail;
  }

  /** Joining the parts of a split gives back the original text. */
  lemma {:induction false} JoinSplit(s: string, sep: string)
    requires |sep| > 0
    ensures Join(Split(s, sep), sep) == s
    decreases |s|
  {
    match Find(s, sep)
    case None =>
    case Some(k) =>
      var rest := s[k + |sep|..];
      JoinSplit(rest, sep);
      JoinCons(s[..k], Split(rest, sep), sep);
      Around(s, k, |sep|);
  }

  /** No part of a split contains the separator. */
  lemma {:induction false} SplitPartsFree(s: string, sep: string)
    requires |sep| > 0
    ensures forall i :: 0 <= i < |Split(s, sep)| ==> !Contains(Split(s, sep)[i], sep)
    decreases |s|
  {
    match Find(s, sep)
    case None =>
    case Some(k) =>
      var rest := s[k + |sep|..];
      SplitPartsFree(rest, sep);
      PrefixFree(s, sep, k);
  }

  /** The text before the first occurrence does not contain it. */
  lemma PrefixFree(s: string, sub: string, k: nat)
    requires |sub| > 0 && k <= |s| && forall j :: 0 <= j < k ==> !OccursAt(s, sub, j)
    ensures !Contains(s[..k], sub)
  {
    forall j: nat ensures !OccursAt(s[..k], sub, j) {
      if j + |sub| <= k {
        SliceOfPrefix(s, k, j, j + |sub|);
        assert !OccursAt(s, sub, j);
      }
    }
  }

  /** The split has more than one part exactly when the separator occurs,
      and its first part is the text before the first occurrence. */
  lemma SplitHead(s: string, sep: string)
    requires |sep| > 0
    ensures |Split(s, sep)| > 1 <==> Find(s, sep).Some?
    ensures Find(s, sep).Some? ==>
      Split(s, sep)[0] == s[..Find(s, sep).value] &&
      Split(s, sep)[1..] == Split(s[Find(s, sep).value + |sep|..], sep)
    ensures Find(s, sep).None? ==> Split(s, sep) == [s]
  {
  }

  /** `a + sep + b` splits at the end of `a` when no occurrence of `sep`
      starts inside `a`. */
  lemma FindAfter(a: string, sep: string, b: string)
    requires |sep| > 0 && !Contains(a + sep[..|sep| - 1], sep)
    ensures Find(a + sep + b, sep) == Some(|a|)
  {
    var text := a + sep + b;
    var prefix := a + sep[..|sep| - 1];
    assert text[|a|..|a| + |sep|] == sep;
    assert OccursAt(text, sep, |a|);
    assert text[..|prefix|] == prefix;
    forall j: nat | j < |a| ensures !OccursAt(text, sep, j) {
      SliceOfPrefix(text, |prefix|, j, j + |sep|);
      assert !OccursAt(prefix, sep, j);
    }
  }

  /** A text without the first character of `sep` cannot hold it, even when a
      proper prefix of `sep` follows. */
  lemma NoOccurrenceBefore(a: string, sep: string)
    requires |sep| > 0 && sep[0] !in a
    ensures !Contains(a + sep[..|sep| - 1], sep)
  {
    var prefix := a + sep[..|sep| - 1];
    forall j: nat ensures !OccursAt(prefix, sep, j) {
      if j + |sep| <= |prefix| {
        assert prefix[j] == a[j];
        assert prefix[j..j + |sep|][0] == prefix[j];
      }
    }
  }

  /** A one-character separator occurs only where its character does. */
  lemma NoCharNoOccurrence(s: string, c: char)
    requires c !in s
    ensures !Contains(s, [c])
  {
    forall j: nat ensures !OccursAt(s, [c], j) {
      if j + 1 <= |s| {
        assert s[j..j + 1][0] == s[j];
      }
    }
  }

  /** Splitting `a + sep + b` where `a` holds no occurrence of `sep` gives
      `a` followed by the parts of `b`. */
  lemma SplitAfter(a: string, sep: string, b: string)
    requires |sep| > 0 && !Contains(a + sep[..|sep| - 1], sep)
    ensures Split(a + sep + b, sep) == [a] + Split(b, sep)
  {
    FindAfter(a, sep, b);
    var text := a + sep + b;
    assert text[..|a|] == a;
    assert text[|a| + |sep|..] == b;
  }

  predicate StartsWith(s: string, prefix: string)
  {
    |prefix| <= |s| && s[..|prefix|] == prefix
  }

  /** Appending keeps a prefix. */
  lemma StartsWithAppend(s: string, prefix: string, t: string)
    requires StartsWith(s, prefix)
    ensures StartsWith(s + t, prefix)
  {
    assert (s + t)[..|prefix|] == s[..|prefix|];
  }
}
