/** `compareBytes` of golang/make.go: three-way lexicographic comparison of
    byte strings, with the laws that make it an ordering. Go's own string
    comparison (used by `sort.Strings`) is the same byte-wise order. */
module Compare {
  import opened ByteStrings

  /** `a` sorts after `b`: it is larger at the first byte where the two
      differ, or `b` is a proper prefix of `a`. */
  ghost predicate LexGreater(a: Bytes, b: Bytes) {
    || (exists i | 0 <= i < |a| && i < |b| :: a[..i] == b[..i] && a[i] > b[i])
    || (|a| > |b| && a[..|b|] == b)
  }

  /** Reference definition of the comparison, one byte at a time. */
  function CompareBytes(a: Bytes, b: Bytes): (r: int)
    ensures -1 <= r <= 1
    ensures r == 0 <==> a == b
    decreases |a|
  {
    if |a| == 0 || |b| == 0 then
      if |a| > |b| then 1 else if |a| < |b| then -1 else 0
    else if a[0] > b[0] then 1
    else if a[0] < b[0] then -1
    else
      assert a == [a[0]] + a[1..] && b == [b[0]] + b[1..];
      CompareBytes(a[1..], b[1..])
  }

  /** The loop of `compareBytes` as written: scan the common prefix, return at
      the first differing byte, otherwise decide by length. */
  method CompareBytesLoop(a: Bytes, b: Bytes) returns (r: int)
    ensures r == CompareBytes(a, b)
    ensures r == 0 <==> a == b
    ensures r == 1 <==> LexGreater(a, b)
    ensures r == -1 <==> LexGreater(b, a)
  {
    CompareOneIffGreater(a, b);
    CompareOneIffGreater(b, a);
    CompareAntisymmetric(a, b);
    var i := 0;
    while i < |a| && i < |b|
      invariant i <= |a| && i <= |b|
      invariant CompareBytes(a[i..], b[i..]) == CompareBytes(a, b)
    {
      if a[i] > b[i] {
        return 1;
      } else if a[i] < b[i] {
        return -1;
      }
      i := i + 1;
    }
    if |a| > |b| {
      r := 1;
    } else if |a| < |b| {
      r := -1;
    } else {
      r := 0;
    }
  }

  /** Dropping an equal first byte neither creates nor destroys a difference. */
  lemma LexGreaterTail(a: Bytes, b: Bytes)
    requires |a| > 0 && |b| > 0 && a[0] == b[0]
    ensures LexGreater(a, b) <==> LexGreater(a[1..], b[1..])
  {
    var a', b' := a[1..], b[1..];
    if LexGreater(a, b) {
      if i :| 0 <= i < |a| && i < |b| && a[..i] == b[..i] && a[i] > b[i] {
        assert i != 0;
        assert a'[..i - 1] == a[1..i] == b[1..i] == b'[..i - 1];
        assert a'[i - 1] > b'[i - 1];
      } else {
        assert a'[..|b'|] == a[1..|b|] == b[1..] == b';
      }
    }
    if LexGreater(a', b') {
      if j :| 0 <= j < |a'| && j < |b'| && a'[..j] == b'[..j] && a'[j] > b'[j] {
        assert a[..j + 1] == [a[0]] + a'[..j] == [b[0]] + b'[..j] == b[..j + 1];
        assert a[j + 1] > b[j + 1];
      } else {
        assert a[..|b|] == [a[0]] + a'[..|b'|] == [b[0]] + b' == b;
      }
    }
  }

  /** `compareBytes` returns 1 exactly when `a` sorts after `b`. */
  lemma {:induction false} CompareOneIffGreater(a: Bytes, b: Bytes)
    ensures CompareBytes(a, b) == 1 <==> LexGreater(a, b)
    decreases |a|
  {
    if |a| == 0 || |b| == 0 {
      if |a| > |b| {
        assert a[..|b|] == b;
      }
    } else if a[0] > b[0] {
      assert a[..0] == b[..0];
    } else if a[0] < b[0] {
      assert forall i | 0 < i <= |a| && i <= |b| :: a[..i][0] == a[0] && b[..i][0] == b[0];
    } else {
      LexGreaterTail(a, b);
      CompareOneIffGreater(a[1..], b[1..]);
    }
  }

  /** Swapping the arguments negates the result. */
  lemma {:induction false} CompareAntisymmetric(a: Bytes, b: Bytes)
    ensures CompareBytes(a, b) == -CompareBytes(b, a)
    decreases |a|
  {
    if |a| > 0 && |b| > 0 && a[0] == b[0] {
      CompareAntisymmetric(a[1..], b[1..]);
    }
  }

  /** The comparison is total: one of the two orders always holds. */
  lemma CompareTotal(a: Bytes, b: Bytes)
    ensures CompareBytes(a, b) <= 0 || CompareBytes(b, a) <= 0
  {
    CompareAntisymmetric(a, b);
  }

  /** "Not after" is transitive. */
  lemma {:induction false} CompareTransitive(a: Bytes, b: Bytes, c: Bytes)
    requires CompareBytes(a, b) <= 0 && CompareBytes(b, c) <= 0
    ensures CompareBytes(a, c) <= 0
    decreases |a|
  {
    if |a| > 0 && |b| > 0 && |c| > 0 && a[0] == b[0] && b[0] == c[0] {
      CompareTransitive(a[1..], b[1..], c[1..]);
    }
  }
}
