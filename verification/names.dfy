/** Note file names: the dated-name pattern `^_\d{4}-\d{2}-\d{2}-`, the fixed
    offsets that cut a matched name into date and real name, and
    `decorateFilename`, which turns a real name into a title. */
module NoteNames {
  import opened ByteStrings

  /** One position of an anchored byte pattern: a literal byte or `\d`. */
  datatype ByteClass = Literal(b: byte) | AnyDigit

  predicate Accepts(c: ByteClass, b: byte) {
    match c
    case Literal(x) => b == x
    case AnyDigit => IsDigit(b)
  }

  /** `_`, four digits, `-`, two digits, `-`, two digits, `-`. */
  const DatePrefix: seq<ByteClass> := [
    Literal(Underscore), AnyDigit, AnyDigit, AnyDigit, AnyDigit,
    Literal(Dash), AnyDigit, AnyDigit,
    Literal(Dash), AnyDigit, AnyDigit,
    Literal(Dash)]

  /** The pattern matches at the start of `s` (a regexp anchored by `^`). */
  predicate PrefixMatches(p: seq<ByteClass>, s: Bytes)
    decreases |p|
  {
    |p| == 0 || (|s| > 0 && Accepts(p[0], s[0]) && PrefixMatches(p[1..], s[1..]))
  }

  predicate IsNoteName(s: Bytes) {
    PrefixMatches(DatePrefix, s)
  }

  /** A match consumes one byte per pattern position, so the subject is at
      least as long as the pattern and each byte is of its position's class. */
  lemma {:induction false} PrefixMatchesBytes(p: seq<ByteClass>, s: Bytes)
    requires PrefixMatches(p, s)
    ensures |s| >= |p|
    ensures forall i | 0 <= i < |p| :: Accepts(p[i], s[i])
    decreases |p|
  {
    if |p| > 0 {
      PrefixMatchesBytes(p[1..], s[1..]);
      forall i | 0 < i < |p| ensures Accepts(p[i], s[i]) {
        assert p[1..][i - 1] == p[i] && s[1..][i - 1] == s[i];
      }
    }
  }

  /** Every name the pattern accepts is long enough for `value[12:]` and
      `value[1:11]`, and has the layout the pattern describes. */
  lemma NoteNameLayout(s: Bytes)
    requires IsNoteName(s)
    ensures |s| >= 12
    ensures s[0] == Underscore && s[5] == Dash && s[8] == Dash && s[11] == Dash
    ensures IsDigit(s[1]) && IsDigit(s[2]) && IsDigit(s[3]) && IsDigit(s[4])
    ensures IsDigit(s[6]) && IsDigit(s[7]) && IsDigit(s[9]) && IsDigit(s[10])
  {
    PrefixMatchesBytes(DatePrefix, s);
    assert Accepts(DatePrefix[0], s[0]) && Accepts(DatePrefix[5], s[5]);
    assert Accepts(DatePrefix[8], s[8]) && Accepts(DatePrefix[11], s[11]);
    assert Accepts(DatePrefix[1], s[1]) && Accepts(DatePrefix[2], s[2]);
    assert Accepts(DatePrefix[3], s[3]) && Accepts(DatePrefix[4], s[4]);
    assert Accepts(DatePrefix[6], s[6]) && Accepts(DatePrefix[7], s[7]);
    assert Accepts(DatePrefix[9], s[9]) && Accepts(DatePrefix[10], s[10]);
  }

  /** `value[1:11]`: the `YYYY-MM-DD` date of a note name. */
  function Date(name: Bytes): (d: Bytes)
    requires IsNoteName(name)
    ensures |d| == 10
    ensures d[4] == Dash && d[7] == Dash
    ensures IsDigit(d[0]) && IsDigit(d[1]) && IsDigit(d[2]) && IsDigit(d[3])
    ensures IsDigit(d[5]) && IsDigit(d[6]) && IsDigit(d[8]) && IsDigit(d[9])
  {
    NoteNameLayout(name);
    name[1..11]
  }

  /** `value[12:]`: the name the rewritten note is stored under. */
  function RealName(name: Bytes): (r: Bytes)
    requires IsNoteName(name)
    ensures |r| == |name| - 12
  {
    NoteNameLayout(name);
    name[12..]
  }

  /** The two slices lose nothing: a dated name is exactly `_`, its date,
      `-`, then its real name. */
  lemma NoteNameSplit(name: Bytes)
    requires IsNoteName(name)
    ensures name == [Underscore] + Date(name) + [Dash] + RealName(name)
  {
    NoteNameLayout(name);
  }

  /** The directory entries whose names match the pattern, in listing order. */
  function Matching(listing: seq<Bytes>): (r: seq<Bytes>)
    ensures forall n :: n in r <==> n in listing && IsNoteName(n)
    ensures forall i | 0 <= i < |r| :: IsNoteName(r[i])
    ensures forall n :: multiset(r)[n] == if IsNoteName(n) then multiset(listing)[n] else 0
    decreases |listing|
  {
    if |listing| == 0 then []
    else
      var init, last := listing[..|listing| - 1], listing[|listing| - 1];
      assert listing == init + [last];
      if IsNoteName(last) then Matching(init) + [last] else Matching(init)
  }

  /** Which names match depends only on which names are listed. */
  lemma MatchingPermutation(l1: seq<Bytes>, l2: seq<Bytes>)
    requires multiset(l1) == multiset(l2)
    ensures multiset(Matching(l1)) == multiset(Matching(l2))
  {
    forall n ensures multiset(Matching(l1))[n] == multiset(Matching(l2))[n] {
    }
  }

  /** Index of the last `.` in `s`, or -1 when there is none. */
  function LastDot(s: Bytes): (i: int)
    ensures -1 <= i < |s|
    decreases |s|
  {
    if |s| == 0 then -1
    else if s[|s| - 1] == Dot then |s| - 1
    else LastDot(s[..|s| - 1])
  }

  /** `LastDot` finds a dot, and no dot follows it. */
  lemma {:induction false} LastDotIsLast(s: Bytes)
    ensures LastDot(s) >= 0 ==> s[LastDot(s)] == Dot
    ensures forall j | LastDot(s) < j < |s| :: s[j] != Dot
    decreases |s|
  {
    if |s| > 0 && s[|s| - 1] != Dot {
      var t := s[..|s| - 1];
      LastDotIsLast(t);
      assert forall j | 0 <= j < |t| :: t[j] == s[j];
    }
  }

  function DashesToSpaces(s: Bytes): (r: Bytes)
    ensures |r| == |s|
  {
    seq(|s|, i requires 0 <= i < |s| => if s[i] == Dash then Space else s[i])
  }

  /** `decorateFilename`: the bytes before the last `.` (all of them when
      there is none), with every `-` turned into a space. Byte by byte the
      title is the name with each `-` replaced by a space, so it holds no
      `-` at all. */
  function Decorate(name: Bytes): (r: Bytes)
    ensures |r| <= |name|
    ensures forall i | 0 <= i < |r| :: r[i] == if name[i] == Dash then Space else name[i]
    ensures Dash !in r
  {
    var i := LastDot(name);
    DashesToSpaces(if i >= 0 then name[..i] else name)
  }

  /** The title stops exactly at the last `.` of the name: it is the whole
      name when there is no dot, and otherwise a dot follows it and no dot
      comes after that one. */
  lemma DecorateCut(name: Bytes)
    ensures var r := Decorate(name);
      && (|r| == |name| <==> Dot !in name)
      && (|r| < |name| ==> name[|r|] == Dot && Dot !in name[|r| + 1..])
  {
    LastDotIsLast(name);
    var i := LastDot(name);
    if i >= 0 {
      assert Dot in name;
      var tail := name[i + 1..];
      forall j | 0 <= j < |tail| ensures tail[j] != Dot {
        assert tail[j] == name[i + 1 + j];
      }
    }
  }

  /** The two loops of `decorateFilename` as written: search backwards for
      the last `.` and cut there, then replace each `-` in place. */
  method DecorateLoop(str: Bytes) returns (r: Bytes)
    ensures r == Decorate(str)
  {
    var suffixStart := -1;
    var i := |str| - 1;
    while i >= 0
      invariant -1 <= i < |str|
      invariant forall j | i < j < |str| :: str[j] != Dot
      decreases i
    {
      if str[i] == Dot {
        suffixStart := i;
        break;
      }
      i := i - 1;
    }
    LastDotIsLast(str);
    assert suffixStart == LastDot(str);
    var stem := if suffixStart != -1 then str[..suffixStart] else str;
    var bytes := stem;
    var pos := 0;
    while pos < |bytes|
      invariant pos <= |bytes| == |stem|
      invariant forall j | 0 <= j < pos :: bytes[j] == if stem[j] == Dash then Space else stem[j]
      invariant forall j | pos <= j < |bytes| :: bytes[j] == stem[j]
    {
      if bytes[pos] == Dash {
        bytes := bytes[pos := Space];
      }
      pos := pos + 1;
    }
    r := bytes;
  }
}
