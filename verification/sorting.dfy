/** `sort.Strings` over the matched note names: ascending byte-wise order.
    The model sorts by insertion; since a sorted permutation is unique
    (`SortedUnique`), every correct sort yields the same sequence. */
module Sorting {
  import opened ByteStrings
  import opened Compare

  predicate NotAfter(a: Bytes, b: Bytes) {
    CompareBytes(a, b) <= 0
  }

  /** Every name is not after the one that follows it. */
  predicate Sorted(s: seq<Bytes>) {
    forall i | 0 < i < |s| :: NotAfter(s[i - 1], s[i])
  }

  /** Adjacent order extends to every pair of positions. */
  lemma {:induction false} SortedPairwise(s: seq<Bytes>)
    requires Sorted(s)
    ensures forall i, j | 0 <= i < j < |s| :: NotAfter(s[i], s[j])
    decreases |s|
  {
    if |s| > 1 {
      var t := s[..|s| - 1];
      assert Sorted(t) by {
        forall i | 0 < i < |t| ensures NotAfter(t[i - 1], t[i]) {
          assert t[i - 1] == s[i - 1] && t[i] == s[i];
        }
      }
      SortedPairwise(t);
      forall i, j | 0 <= i < j < |s| ensures NotAfter(s[i], s[j]) {
        if j < |s| - 1 {
          assert s[i] == t[i] && s[j] == t[j];
        } else if i < j - 1 {
          assert NotAfter(t[i], t[j - 1]);
          CompareTransitive(s[i], s[j - 1], s[j]);
        }
      }
    }
  }

  /** Insertion of one name into a sorted sequence. */
  function Insert(x: Bytes, s: seq<Bytes>): (r: seq<Bytes>)
    requires Sorted(s)
    ensures Sorted(r)
    ensures multiset(r) == multiset(s) + multiset{x}
    ensures |r| == |s| + 1
    ensures r[0] == x || (|s| > 0 && r[0] == s[0])
  {
    if |s| == 0 then [x]
    else if NotAfter(x, s[0]) then [x] + s
    else
      CompareTotal(x, s[0]);
      assert s == [s[0]] + s[1..];
      [s[0]] + Insert(x, s[1..])
  }

  /** The sorted arrangement of `s`. */
  function SortNames(s: seq<Bytes>): (r: seq<Bytes>)
    ensures Sorted(r)
    ensures multiset(r) == multiset(s)
    ensures |r| == |s|
  {
    if |s| == 0 then []
    else
      assert s == s[..|s| - 1] + [s[|s| - 1]];
      Insert(s[|s| - 1], SortNames(s[..|s| - 1]))
  }

  /** The first name of a sorted sequence is not after any of its names. */
  lemma SortedFirstIsLeast(s: seq<Bytes>, x: Bytes)
    requires Sorted(s) && x in s
    ensures NotAfter(s[0], x)
  {
    SortedPairwise(s);
    var j :| 0 <= j < |s| && s[j] == x;
    if j > 0 {
      assert NotAfter(s[0], s[j]);
    }
  }

  lemma SortedTail(s: seq<Bytes>)
    requires Sorted(s) && |s| > 0
    ensures Sorted(s[1..])
  {
    forall i | 0 < i < |s| - 1 ensures NotAfter(s[1..][i - 1], s[1..][i]) {
      assert s[1..][i - 1] == s[i] && s[1..][i] == s[i + 1];
    }
  }

  /** Two sorted arrangements of the same names start with the same name. */
  lemma SortedSameHead(a: seq<Bytes>, b: seq<Bytes>)
    requires Sorted(a) && Sorted(b) && |a| > 0 && |b| > 0
    requires multiset(a) == multiset(b)
    ensures a[0] == b[0]
  {
    assert a[0] in multiset(b) && b[0] in multiset(a);
    SortedFirstIsLeast(b, a[0]);
    SortedFirstIsLeast(a, b[0]);
    CompareAntisymmetric(a[0], b[0]);
  }

  lemma MultisetTail(a: seq<Bytes>)
    requires |a| > 0
    ensures multiset(a[1..]) == multiset(a) - multiset{a[0]}
  {
    assert a == [a[0]] + a[1..];
  }

  /** Two sorted arrangements of the same names are the same sequence. */
  lemma {:induction false} SortedUnique(a: seq<Bytes>, b: seq<Bytes>)
    requires Sorted(a) && Sorted(b)
    requires multiset(a) == multiset(b)
    ensures a == b
    decreases |a|
  {
    assert |a| == |multiset(a)| == |multiset(b)| == |b|;
    if |a| > 0 {
      SortedSameHead(a, b);
      MultisetTail(a);
      MultisetTail(b);
      SortedTail(a);
      SortedTail(b);
      SortedUnique(a[1..], b[1..]);
      assert a == [a[0]] + a[1..] && b == [b[0]] + b[1..];
    }
  }

  /** Sorting depends only on which names there are, not on listing order. */
  lemma SortNamesCanonical(s: seq<Bytes>, t: seq<Bytes>)
    requires multiset(s) == multiset(t)
    ensures SortNames(s) == SortNames(t)
  {
    SortedUnique(SortNames(s), SortNames(t));
  }
}
