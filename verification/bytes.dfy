/** Byte strings, the representation every Go `string` and `[]byte` of the
    note builder has. Text literals are ASCII; the three Chinese link labels
    of the clang variant are written out as their UTF-8 bytes. */
module ByteStrings {

  newtype byte = b: int | 0 <= b < 256

  type Bytes = seq<byte>

  const Newline: byte := 10
  const Space: byte := 32
  const Dash: byte := 45
  const Dot: byte := 46
  const Zero: byte := 48
  const Nine: byte := 57
  const Underscore: byte := 95

  /** The bytes of an ASCII text literal (every literal used here is ASCII). */
  function Ascii(s: string): (r: Bytes)
    ensures |r| == |s|
  {
    seq(|s|, i requires 0 <= i < |s| => (s[i] as int % 256) as byte)
  }

  predicate IsDigit(b: byte) {
    Zero <= b <= Nine
  }

  /** The concatenation of `f(x)` over the elements `x` of `xs`, in order. */
  function FlatMap<T>(xs: seq<T>, f: T -> Bytes): Bytes
    decreases |xs|
  {
    if |xs| == 0 then [] else FlatMap(xs[..|xs| - 1], f) + f(xs[|xs| - 1])
  }

  predicate IsPrefix(a: Bytes, b: Bytes) {
    |a| <= |b| && b[..|a|] == a
  }

  lemma PrefixExtend(a: Bytes, b: Bytes, c: Bytes)
    requires IsPrefix(a, b)
    ensures IsPrefix(a, b + c)
  {
    assert (b + c)[..|a|] == b[..|a|];
  }

  /** Concatenation regroups freely; callers name the three parts so the
      solver need not look inside them. */
  lemma AppendAssoc(a: Bytes, b: Bytes, c: Bytes)
    ensures a + b + c == a + (b + c)
  {
  }

  /** One more element adds its piece at the end. */
  lemma FlatMapSnoc<T>(xs: seq<T>, x: T, f: T -> Bytes)
    ensures FlatMap(xs + [x], f) == FlatMap(xs, f) + f(x)
  {
    assert (xs + [x])[..|xs|] == xs;
  }

  /** The piece of the first element comes first. */
  lemma {:induction false} FlatMapCons<T>(x: T, xs: seq<T>, f: T -> Bytes)
    ensures FlatMap([x] + xs, f) == f(x) + FlatMap(xs, f)
    decreases |xs|
  {
    if |xs| == 0 {
      assert [x] + xs == [] + [x];
      FlatMapSnoc([], x, f);
    } else {
      var init, last := xs[..|xs| - 1], xs[|xs| - 1];
      assert [x] + xs == ([x] + init) + [last] && xs == init + [last];
      FlatMapSnoc([x] + init, last, f);
      FlatMapSnoc(init, last, f);
      FlatMapCons(x, init, f);
      AppendAssoc(f(x), FlatMap(init, f), f(last));
    }
  }
}
