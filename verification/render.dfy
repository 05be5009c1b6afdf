/** What the builder writes for one note: the index entry (with its
    two-line excerpt), the rewritten note (header, unchanged body, links
    footer) and the change-summary item. The two variants differ only in the
    date marker, the read-more base, the labels and the back-link. */
module Render {
  import opened ByteStrings
  import opened Compare
  import opened NoteNames
  import opened Options

  /** golang/make.go, or clang/upload.go with its directory name. */
  datatype Variant = Golang | Clang(dirname: Bytes)

  /** 上一节, 下一节 and 目录 in UTF-8. */
  const PreviousChapter: Bytes := [0xE4, 0xB8, 0x8A, 0xE4, 0xB8, 0x80, 0xE8, 0x8A, 0x82]
  const NextChapter: Bytes := [0xE4, 0xB8, 0x8B, 0xE4, 0xB8, 0x80, 0xE8, 0x8A, 0x82]
  const Contents: Bytes := [0xE7, 0x9B, 0xAE, 0xE5, 0xBD, 0x95]

  function PreviousLabel(v: Variant): Bytes {
    match v
    case Golang => Ascii("previous")
    case Clang(_) => PreviousChapter
  }

  function NextLabel(v: Variant): Bytes {
    match v
    case Golang => Ascii("next")
    case Clang(_) => NextChapter
  }

  /** Every name of the sequence matches the dated-name pattern. */
  predicate AllNoteNames(names: seq<Bytes>) {
    forall i | 0 <= i < |names| :: IsNoteName(names[i])
  }

  // ---------------------------------------------------------------- excerpt

  /** The first two lines of a note, each without its newline. */
  datatype TwoLines = TwoLines(first: Bytes, second: Bytes)

  /** `bufio.Reader.ReadString('\n')` with the newline cut off: the bytes
      before the first newline and the bytes after it; `None` (an error)
      when there is no newline. */
  function ReadLine(s: Bytes): Option<(Bytes, Bytes)>
    decreases |s|
  {
    if |s| == 0 then None
    else if s[0] == Newline then Some(([], s[1..]))
    else
      match ReadLine(s[1..])
      case None => None
      case Some((line, rest)) => Some(([s[0]] + line, rest))
  }

  /** A line is read exactly when there is a newline; the line holds none,
      and the line, the newline and the rest make up the input. */
  lemma {:induction false} ReadLineSplit(s: Bytes)
    ensures ReadLine(s).None? <==> Newline !in s
    ensures ReadLine(s).Some? ==>
      var (line, rest) := ReadLine(s).value;
      s == line + [Newline] + rest && Newline !in line
    decreases |s|
  {
    if |s| > 0 {
      assert s == [s[0]] + s[1..];
      if s[0] != Newline {
        ReadLineSplit(s[1..]);
        assert Newline in s <==> Newline in s[1..];
        if ReadLine(s[1..]).Some? {
          var (line, rest) := ReadLine(s[1..]).value;
          assert s == [s[0]] + line + [Newline] + rest;
        }
      }
    }
  }

  /** The excerpt read for the index: two lines, or `None` when the note holds
      fewer than two newlines (the source stops with an error then). */
  function Excerpt(content: Bytes): Option<TwoLines> {
    match ReadLine(content)
    case None => None
    case Some((first, rest)) =>
      match ReadLine(rest)
      case None => None
      case Some((second, _)) => Some(TwoLines(first, second))
  }

  /** An excerpt is the first two lines of the note, each without its
      newline. */
  lemma ExcerptLayout(content: Bytes)
    ensures var r := Excerpt(content);
      r.Some? ==>
        && Newline !in r.value.first && Newline !in r.value.second
        && |r.value.first| + |r.value.second| + 2 <= |content|
        && content[..|r.value.first| + |r.value.second| + 2]
           == r.value.first + [Newline] + r.value.second + [Newline]
  {
    ReadLineSplit(content);
    if ReadLine(content).Some? {
      var (first, rest) := ReadLine(content).value;
      ReadLineSplit(rest);
      if ReadLine(rest).Some? {
        var (second, tail) := ReadLine(rest).value;
        var c := first + [Newline] + second + [Newline];
        assert content == c + tail;
        assert content[..|c|] == c;
      }
    }
  }

  /** There is no excerpt exactly when the note holds fewer than two
      newlines. */
  lemma ExcerptNone(content: Bytes)
    ensures Excerpt(content).None? <==>
      forall i, j | 0 <= i < j < |content| :: !(content[i] == Newline && content[j] == Newline)
  {
    ReadLineSplit(content);
    match ReadLine(content)
    case None =>
    case Some((first, rest)) =>
      ReadLineSplit(rest);
      match ReadLine(rest)
      case None =>
        forall i, j | 0 <= i < j < |content| && content[i] == Newline
          ensures content[j] != Newline
        {
          assert content[..|first|] == first;
          assert i == |first|;
          assert content[j] == rest[j - |first| - 1];
        }
      case Some((second, tail)) =>
        var c := first + [Newline] + second + [Newline];
        assert content == c + tail;
        assert content[|first|] == Newline && content[|c| - 1] == Newline;
  }

  // ------------------------------------------------------------ index entry

  const IndexHead: Bytes := Ascii("Index\n-----\n\n")

  /** The date line under a heading: bare in golang, `*date*` in clang. */
  function DateMarker(v: Variant, date: Bytes): Bytes {
    match v
    case Golang => date + [Newline]
    case Clang(_) => Ascii("*") + date + Ascii("*\n")
  }

  /** The directory the read-more link points into. */
  function ReadMoreBase(v: Variant): Bytes {
    match v
    case Golang => Ascii("golang/")
    case Clang(dirname) => dirname + Ascii("/")
  }

  function Heading(name: Bytes): Bytes
    requires IsNoteName(name)
  {
    Ascii("####") + Decorate(RealName(name)) + [Newline]
  }

  function ReadMore(v: Variant, name: Bytes): Bytes
    requires IsNoteName(name)
  {
    Ascii("...[Read More](") + ReadMoreBase(v) + RealName(name) + Ascii(")\n\n")
  }

  /** One index entry: heading with the title, date marker, the two excerpt
      lines run together, and the read-more link to the rewritten note. */
  function IndexEntry(v: Variant, name: Bytes, excerpt: TwoLines): Bytes
    requires IsNoteName(name)
  {
    Heading(name) + DateMarker(v, Date(name)) + (excerpt.first + excerpt.second) + ReadMore(v, name)
  }

  /** The parts of an index entry, in order: heading, date marker, excerpt,
      read-more link. */
  lemma IndexEntryLayout(v: Variant, name: Bytes, excerpt: TwoLines)
    requires IsNoteName(name)
    ensures var r := IndexEntry(v, name, excerpt);
      var h, d, x := Heading(name), DateMarker(v, Date(name)), excerpt.first + excerpt.second;
      && |r| == |h| + |d| + |x| + |ReadMore(v, name)|
      && r[..|h|] == h
      && r[|h|..|h| + |d|] == d
      && r[|h| + |d|..|h| + |d| + |x|] == x
      && r[|h| + |d| + |x|..] == ReadMore(v, name)
  {
    var h, d, x := Heading(name), DateMarker(v, Date(name)), excerpt.first + excerpt.second;
    var r := IndexEntry(v, name, excerpt);
    assert r == h + d + x + ReadMore(v, name);
    assert r[..|h|] == h;
    assert r[|h|..|h| + |d|] == d;
    assert r[|h| + |d|..|h| + |d| + |x|] == x;
  }

  /** Recovers the excerpt text from an index entry of note `name`: strip
      the heading and date marker in front and the read-more link behind. */
  function ExtractExcerpt(v: Variant, name: Bytes, entry: Bytes): (r: Option<Bytes>)
    requires IsNoteName(name)
  {
    var front, back := Heading(name) + DateMarker(v, Date(name)), ReadMore(v, name);
    if |front| + |back| <= |entry| && entry[..|front|] == front && entry[|entry| - |back|..] == back
    then Some(entry[|front|..|entry| - |back|])
    else None
  }

  /** The two excerpt lines, run together, can be read back from the entry. */
  lemma ExtractEntry(v: Variant, name: Bytes, excerpt: TwoLines)
    requires IsNoteName(name)
    ensures ExtractExcerpt(v, name, IndexEntry(v, name, excerpt)) == Some(excerpt.first + excerpt.second)
  {
    IndexEntryLayout(v, name, excerpt);
  }

  /** Two excerpts give the same entry exactly when their lines run together
      to the same text: the entry keeps no trace of where the first line
      ended. */
  lemma IndexEntryIffSameText(v: Variant, name: Bytes, e1: TwoLines, e2: TwoLines)
    requires IsNoteName(name)
    ensures IndexEntry(v, name, e1) == IndexEntry(v, name, e2) <==> e1.first + e1.second == e2.first + e2.second
  {
    ExtractEntry(v, name, e1);
    ExtractEntry(v, name, e2);
  }

  // ---------------------------------------------------------- rewritten note

  /** A footer link: back to the index (clang only), or to a neighbour's
      real name. */
  datatype Link = BackToIndex(dirname: Bytes) | Previous(target: Bytes) | Next(target: Bytes)

  function Rank(l: Link): nat {
    match l
    case BackToIndex(_) => 0
    case Previous(_) => 1
    case Next(_) => 2
  }

  /** The links of the note at position `k` of the sorted names. */
  function FooterLinks(v: Variant, names: seq<Bytes>, k: nat): seq<Link>
    requires AllNoteNames(names) && k < |names|
  {
    (if v.Clang? then [BackToIndex(v.dirname)] else [])
    + (if k != 0 then [Previous(RealName(names[k - 1]))] else [])
    + (if k != |names| - 1 then [Next(RealName(names[k + 1]))] else [])
  }

  lemma FooterBackLink(v: Variant, names: seq<Bytes>, k: nat)
    requires AllNoteNames(names) && k < |names|
    ensures var links := FooterLinks(v, names, k);
      && (v.Clang? <==> exists l | l in links :: l.BackToIndex?)
      && (v.Clang? ==> links[0] == BackToIndex(v.dirname))
      && (forall l | l in links && l.BackToIndex? :: v.Clang? && l == BackToIndex(v.dirname))
  {
    var back := if v.Clang? then [BackToIndex(v.dirname)] else [];
    var prev := if k != 0 then [Previous(RealName(names[k - 1]))] else [];
    var next := if k != |names| - 1 then [Next(RealName(names[k + 1]))] else [];
    var links := back + prev + next;
    assert links == FooterLinks(v, names, k);
    assert v.Clang? ==> links[0] == back[0];
  }

  lemma FooterPreviousLink(v: Variant, names: seq<Bytes>, k: nat)
    requires AllNoteNames(names) && k < |names|
    ensures var links := FooterLinks(v, names, k);
      && (k != 0 <==> exists l | l in links :: l.Previous?)
      && (k != 0 ==> Previous(RealName(names[k - 1])) in links)
      && (forall l | l in links && l.Previous? :: k != 0 && l == Previous(RealName(names[k - 1])))
  {
    var back := if v.Clang? then [BackToIndex(v.dirname)] else [];
    var prev := if k != 0 then [Previous(RealName(names[k - 1]))] else [];
    var next := if k != |names| - 1 then [Next(RealName(names[k + 1]))] else [];
    var links := back + prev + next;
    assert links == FooterLinks(v, names, k);
    assert k != 0 ==> links[|back|] == prev[0];
  }

  lemma FooterNextLink(v: Variant, names: seq<Bytes>, k: nat)
    requires AllNoteNames(names) && k < |names|
    ensures var links := FooterLinks(v, names, k);
      && (k != |names| - 1 <==> exists l | l in links :: l.Next?)
      && (k != |names| - 1 ==> Next(RealName(names[k + 1])) in links)
      && (forall l | l in links && l.Next? :: k + 1 < |names| && l == Next(RealName(names[k + 1])))
  {
    var back := if v.Clang? then [BackToIndex(v.dirname)] else [];
    var prev := if k != 0 then [Previous(RealName(names[k - 1]))] else [];
    var next := if k != |names| - 1 then [Next(RealName(names[k + 1]))] else [];
    var links := back + prev + next;
    assert links == FooterLinks(v, names, k);
    assert k != |names| - 1 ==> links[|back| + |prev|] == next[0];
  }

  lemma FooterRanked(v: Variant, names: seq<Bytes>, k: nat)
    requires AllNoteNames(names) && k < |names|
    ensures var links := FooterLinks(v, names, k);
      forall i, j | 0 <= i < j < |links| :: Rank(links[i]) < Rank(links[j])
  {
    var back := if v.Clang? then [BackToIndex(v.dirname)] else [];
    var prev := if k != 0 then [Previous(RealName(names[k - 1]))] else [];
    var next := if k != |names| - 1 then [Next(RealName(names[k + 1]))] else [];
    var links := back + prev + next;
    assert links == FooterLinks(v, names, k);
  }

  /** Which links a note gets depends only on its position: the back-link
      first and always (clang), a previous-link to the note before it exactly
      when it is not first, a next-link to the note after it exactly when it
      is not last, in that order and each at most once. */
  lemma FooterLinksByPosition(v: Variant, names: seq<Bytes>, k: nat)
    requires AllNoteNames(names) && k < |names|
    ensures var links := FooterLinks(v, names, k);
      && (v.Clang? <==> exists l | l in links :: l.BackToIndex?)
      && (v.Clang? ==> links[0] == BackToIndex(v.dirname))
      && (forall l | l in links && l.BackToIndex? :: v.Clang? && l == BackToIndex(v.dirname))
      && (k != 0 <==> exists l | l in links :: l.Previous?)
      && (k != 0 ==> Previous(RealName(names[k - 1])) in links)
      && (forall l | l in links && l.Previous? :: k != 0 && l == Previous(RealName(names[k - 1])))
      && (k != |names| - 1 <==> exists l | l in links :: l.Next?)
      && (k != |names| - 1 ==> Next(RealName(names[k + 1])) in links)
      && (forall l | l in links && l.Next? :: k + 1 < |names| && l == Next(RealName(names[k + 1])))
      && (forall i, j | 0 <= i < j < |links| :: Rank(links[i]) < Rank(links[j]))
  {
    FooterBackLink(v, names, k);
    FooterPreviousLink(v, names, k);
    FooterNextLink(v, names, k);
    FooterRanked(v, names, k);
  }

  /** With a single note there are no neighbours: the footer holds the
      back-link alone (clang) or nothing (golang). */
  lemma FooterLinksSingleNote(v: Variant, name: Bytes)
    requires IsNoteName(name)
    ensures FooterLinks(v, [name], 0) == if v.Clang? then [BackToIndex(v.dirname)] else []
  {
  }

  /** `+ [目录](../dirname)` or `+ label: [title](target)`, one line. */
  function RenderLink(v: Variant, l: Link): Bytes {
    match l
    case BackToIndex(dirname) => Ascii("+ [") + Contents + Ascii("](../") + dirname + Ascii(")\n")
    case Previous(target) =>
      Ascii("+ ") + PreviousLabel(v) + Ascii(": [") + Decorate(target) + Ascii("](") + target + Ascii(")\n")
    case Next(target) =>
      Ascii("+ ") + NextLabel(v) + Ascii(": [") + Decorate(target) + Ascii("](") + target + Ascii(")\n")
  }

  const LinksHeading: Bytes := Ascii("\n\nlinks\n-----\n")

  /** The footer lines of the links, in order. */
  function RenderLinks(v: Variant, links: seq<Link>): Bytes {
    FlatMap(links, l => RenderLink(v, l))
  }

  /** In clang every rewritten note's footer starts with the back-link line
      `+ [目录](../dirname)` to the index, whatever the note's position. */
  lemma ClangFooterStartsWithBackLink(v: Variant, names: seq<Bytes>, k: nat)
    requires AllNoteNames(names) && k < |names| && v.Clang?
    ensures IsPrefix(LinksHeading + RenderLink(v, BackToIndex(v.dirname)), NoteFooter(v, names, k))
  {
    var back := BackToIndex(v.dirname);
    var rest := (if k != 0 then [Previous(RealName(names[k - 1]))] else [])
      + (if k != |names| - 1 then [Next(RealName(names[k + 1]))] else []);
    assert FooterLinks(v, names, k) == [back] + rest;
    FlatMapCons(back, rest, l => RenderLink(v, l));
    AppendAssoc(LinksHeading, RenderLink(v, back), RenderLinks(v, rest));
    assert IsPrefix(LinksHeading + RenderLink(v, back), LinksHeading + RenderLink(v, back) + RenderLinks(v, rest));
  }

  function NoteHeader(name: Bytes): Bytes
    requires IsNoteName(name)
  {
    Decorate(RealName(name)) + Ascii("\n----\n\n")
  }

  function NoteFooter(v: Variant, names: seq<Bytes>, k: nat): Bytes
    requires AllNoteNames(names) && k < |names|
  {
    LinksHeading + RenderLinks(v, FooterLinks(v, names, k))
  }

  /** The new content of the note at position `k`: header, the original body
      unchanged, then the links footer. */
  function RewriteNote(v: Variant, names: seq<Bytes>, k: nat, body: Bytes): Bytes
    requires AllNoteNames(names) && k < |names|
  {
    NoteHeader(names[k]) + body + NoteFooter(v, names, k)
  }

  /** The rewritten note is the header, then the body byte for byte, then the
      footer. */
  lemma RewriteNoteLayout(v: Variant, names: seq<Bytes>, k: nat, body: Bytes)
    requires AllNoteNames(names) && k < |names|
    ensures var r := RewriteNote(v, names, k, body);
      var h, f := NoteHeader(names[k]), NoteFooter(v, names, k);
      && |r| == |h| + |body| + |f|
      && r[..|h|] == h
      && r[|h|..|h| + |body|] == body
      && r[|h| + |body|..] == f
  {
    var h, f := NoteHeader(names[k]), NoteFooter(v, names, k);
    var r := RewriteNote(v, names, k, body);
    assert r[..|h|] == h;
    assert r[|h|..|h| + |body|] == body;
  }

  /** Recovers the body from a rewritten note: strip the header this note
      would get and the footer it would get. */
  function ExtractBody(v: Variant, names: seq<Bytes>, k: nat, note: Bytes): (r: Option<Bytes>)
    requires AllNoteNames(names) && k < |names|
  {
    var h, f := NoteHeader(names[k]), NoteFooter(v, names, k);
    if |h| + |f| <= |note| && note[..|h|] == h && note[|note| - |f|..] == f
    then Some(note[|h|..|note| - |f|])
    else None
  }

  /** The original body sits unchanged between header and footer: it can be
      read back from the rewritten note, whatever it holds. */
  lemma ExtractRewrite(v: Variant, names: seq<Bytes>, k: nat, body: Bytes)
    requires AllNoteNames(names) && k < |names|
    ensures ExtractBody(v, names, k, RewriteNote(v, names, k, body)) == Some(body)
  {
    RewriteNoteLayout(v, names, k, body);
  }

  /** Different bodies give different rewritten notes. */
  lemma RewriteInjective(v: Variant, names: seq<Bytes>, k: nat, b1: Bytes, b2: Bytes)
    requires AllNoteNames(names) && k < |names|
    requires RewriteNote(v, names, k, b1) == RewriteNote(v, names, k, b2)
    ensures b1 == b2
  {
    ExtractRewrite(v, names, k, b1);
    ExtractRewrite(v, names, k, b2);
  }

  // ---------------------------------------------------- write/skip decision

  /** The skip test: the existing file was read and equals the new content;
      `compareBytes(...) == 0` in golang, `bytes.Equal` in clang. */
  function UpToDate(v: Variant, disk: map<Bytes, Bytes>, realname: Bytes, note: Bytes): (r: bool)
    ensures r <==> realname in disk && disk[realname] == note
  {
    match v
    case Golang => realname in disk && CompareBytes(note, disk[realname]) == 0
    case Clang(_) => realname in disk && disk[realname] == note
  }

  const ChangeHead: Bytes := Ascii("update README.md;")

  function ChangeItem(realname: Bytes): Bytes {
    Ascii("update ") + realname + Ascii(";")
  }
}
