/** The main loop of both programs as a fold over the sorted note names.
    The directory is a listing (in `Readdir` order) plus a map from file name
    to content; each step reads from the disk as the earlier steps left it,
    and the fold returns the index, the change summary and the writes. */
module Builder {
  import opened ByteStrings
  import opened Options
  import opened Compare
  import opened Sorting
  import opened NoteNames
  import opened Render

  type Disk = map<Bytes, Bytes>

  datatype Write = Write(name: Bytes, content: Bytes)

  /** The fatal errors of the loop: the dated file cannot be opened, or it
      holds fewer than two lines for the excerpt. */
  datatype Failure = CannotOpen(name: Bytes) | TooFewLines(name: Bytes)

  /** The accumulators of the loop and the disk as the writes so far left it. */
  datatype State = State(readme: Bytes, change: Bytes, writes: seq<Write>, disk: Disk)

  /** A finished loop, or the failure that stopped it with the state before
      the failing note (the writes in it are already on disk). */
  datatype Outcome = Completed(after: State) | Aborted(failure: Failure, before: State)

  /** `x` has the same presence and content on both disks. */
  predicate SameFile(d1: Disk, d2: Disk, x: Bytes) {
    (x in d1 <==> x in d2) && (x in d1 ==> d1[x] == d2[x])
  }

  function Start(disk: Disk): State {
    State(IndexHead, ChangeHead, [], disk)
  }

  /** The two texts the loop body derives from a note: the index entry for
      a dated name and its excerpt, and the new content of the note at a
      position of the sorted names. The run does the same with any of them;
      `RendererFor` gives the ones of the two programs. */
  datatype Renderer = Renderer(entry: (Bytes, TwoLines) -> Bytes, note: (nat, Bytes) -> Bytes)

  function RendererFor(v: Variant, names: seq<Bytes>): Renderer
    requires AllNoteNames(names)
  {
    Renderer(
      (name, excerpt) => if IsNoteName(name) then IndexEntry(v, name, excerpt) else [],
      (k: nat, body: Bytes) => if k < |names| then RewriteNote(v, names, k, body) else [])
  }

  /** On the sorted names, the renderer of a program gives its index entries
      and its rewritten notes. */
  lemma RendererTexts(v: Variant, names: seq<Bytes>, k: nat, excerpt: TwoLines, body: Bytes)
    requires AllNoteNames(names) && k < |names|
    ensures RendererFor(v, names).entry(names[k], excerpt) == IndexEntry(v, names[k], excerpt)
    ensures RendererFor(v, names).note(k, body) == RewriteNote(v, names, k, body)
  {
  }

  /** A file is stale when it is missing or holds other content than the
      rewritten note: exactly the case in which the loop writes it. */
  predicate Stale(disk: Disk, realname: Bytes, note: Bytes) {
    !(realname in disk && disk[realname] == note)
  }

  /** The loop body for `filenames[k]`. */
  function ProcessNote(r: Renderer, names: seq<Bytes>, k: nat, st: State): Outcome
    requires AllNoteNames(names) && k < |names|
  {
    var value := names[k];
    if value !in st.disk then Aborted(CannotOpen(value), st)
    else
      var content := st.disk[value];
      match Excerpt(content)
      case None => Aborted(TooFewLines(value), st)
      case Some(excerpt) =>
        var realname := RealName(value);
        var readme := st.readme + r.entry(value, excerpt);
        var note := r.note(k, content);
        if !Stale(st.disk, realname, note) then Completed(st.(readme := readme))
        else Completed(State(readme, st.change + ChangeItem(realname),
                             st.writes + [Write(realname, note)], st.disk[realname := note]))
  }

  /** One loop body stops, with the state unchanged, exactly when the dated
      file is missing or too short, and says which of the two it was. */
  lemma ProcessNoteStops(r: Renderer, names: seq<Bytes>, k: nat, st: State)
    requires AllNoteNames(names) && k < |names|
    ensures var o := ProcessNote(r, names, k, st);
      && (o.Aborted? <==> names[k] !in st.disk || Excerpt(st.disk[names[k]]).None?)
      && (o.Aborted? ==> o.before == st)
      && (o.Aborted? ==>
            o.failure == if names[k] !in st.disk then CannotOpen(names[k]) else TooFewLines(names[k]))
  {
  }

  /** A completed loop body, without its branch: the entry is appended to
      the index; the note is left under the real name; a change item and a
      write are recorded exactly when the file was stale. */
  lemma ProcessNoteEffect(r: Renderer, names: seq<Bytes>, k: nat, st: State)
    requires AllNoteNames(names) && k < |names|
    requires ProcessNote(r, names, k, st).Completed?
    ensures names[k] in st.disk && Excerpt(st.disk[names[k]]).Some?
    ensures var value := names[k];
      var realname, note := RealName(value), r.note(k, st.disk[value]);
      var stale := Stale(st.disk, realname, note);
      ProcessNote(r, names, k, st).after == State(
        st.readme + r.entry(value, Excerpt(st.disk[value]).value),
        st.change + (if stale then ChangeItem(realname) else []),
        st.writes + (if stale then [Write(realname, note)] else []),
        st.disk[realname := note])
  {
    var realname, note := RealName(names[k]), r.note(k, st.disk[names[k]]);
    if !Stale(st.disk, realname, note) {
      assert st.disk[realname := note] == st.disk;
      assert st.change + [] == st.change;
      assert st.writes + [] == st.writes;
    }
  }

  /** The state after the first `n` notes, or the failure that stopped it. */
  function RunPrefix(r: Renderer, names: seq<Bytes>, disk: Disk, n: nat): Outcome
    requires AllNoteNames(names) && n <= |names|
    decreases n, 0
  {
    if n == 0 then Completed(Start(disk)) else AfterNote(r, names, disk, n - 1)
  }

  /** The outcome once the loop has reached `filenames[k]`: the failure
      that stopped it earlier, or the loop body run on the state so far. */
  function AfterNote(r: Renderer, names: seq<Bytes>, disk: Disk, k: nat): Outcome
    requires AllNoteNames(names) && k < |names|
    decreases k, 1
  {
    match RunPrefix(r, names, disk, k)
    case Aborted(f, st) => Aborted(f, st)
    case Completed(st) => ProcessNote(r, names, k, st)
  }

  /** One more note after a completed prefix is one more loop body. */
  lemma RunPrefixStep(r: Renderer, names: seq<Bytes>, disk: Disk, n: nat, st: State)
    requires AllNoteNames(names) && n < |names|
    requires RunPrefix(r, names, disk, n) == Completed(st)
    ensures RunPrefix(r, names, disk, n + 1) == ProcessNote(r, names, n, st)
  {
  }

  /** A stopped run stays stopped at the next note. */
  lemma StepAborted(r: Renderer, names: seq<Bytes>, disk: Disk, n: nat)
    requires AllNoteNames(names) && n < |names|
    requires RunPrefix(r, names, disk, n).Aborted?
    ensures RunPrefix(r, names, disk, n + 1) == RunPrefix(r, names, disk, n)
  {
  }

  /** The run gets through the first `n` notes without a fatal error. */
  predicate Completes(r: Renderer, names: seq<Bytes>, disk: Disk, n: nat)
    requires AllNoteNames(names) && n <= |names|
  {
    RunPrefix(r, names, disk, n).Completed?
  }

  /** The state after the first `n` notes of a run that got that far. */
  function StateAt(r: Renderer, names: seq<Bytes>, disk: Disk, n: nat): State
    requires AllNoteNames(names) && n <= |names| && Completes(r, names, disk, n)
  {
    RunPrefix(r, names, disk, n).after
  }

  /** A run that completes `n` notes completed the first `n - 1`. */
  lemma RunPrefixBack(r: Renderer, names: seq<Bytes>, disk: Disk, n: nat)
    requires AllNoteNames(names) && 0 < n <= |names|
    requires RunPrefix(r, names, disk, n).Completed?
    ensures RunPrefix(r, names, disk, n - 1).Completed?
  {
  }

  /** Note `n` stops a run that got that far exactly when its dated file is
      missing or holds fewer than two lines; the failure names the file and
      the run keeps the state it had. */
  lemma StepStops(r: Renderer, names: seq<Bytes>, disk: Disk, n: nat)
    requires AllNoteNames(names) && n < |names|
    requires Completes(r, names, disk, n)
    ensures var st, o, value := StateAt(r, names, disk, n), RunPrefix(r, names, disk, n + 1), names[n];
      && (o.Aborted? <==> value !in st.disk || Excerpt(st.disk[value]).None?)
      && (o.Aborted? ==> o.before == st)
      && (o.Aborted? ==> o.failure == if value !in st.disk then CannotOpen(value) else TooFewLines(value))
  {
    var st := RunPrefix(r, names, disk, n).after;
    RunPrefixStep(r, names, disk, n, st);
    ProcessNoteStops(r, names, n, st);
  }

  /** What note `n - 1` does to the state of a run that got through it. */
  lemma StepEffect(r: Renderer, names: seq<Bytes>, disk: Disk, n: nat)
    requires AllNoteNames(names) && 0 < n <= |names|
    requires Completes(r, names, disk, n)
    ensures Completes(r, names, disk, n - 1)
    ensures names[n - 1] in StateAt(r, names, disk, n - 1).disk
    ensures Excerpt(StateAt(r, names, disk, n - 1).disk[names[n - 1]]).Some?
    ensures var st0, value := StateAt(r, names, disk, n - 1), names[n - 1];
      var realname, note := RealName(value), r.note(n - 1, st0.disk[value]);
      var stale := Stale(st0.disk, realname, note);
      StateAt(r, names, disk, n) == State(
        st0.readme + r.entry(value, Excerpt(st0.disk[value]).value),
        st0.change + (if stale then ChangeItem(realname) else []),
        st0.writes + (if stale then [Write(realname, note)] else []),
        st0.disk[realname := note])
  {
    RunPrefixBack(r, names, disk, n);
    var st0 := StateAt(r, names, disk, n - 1);
    RunPrefixStep(r, names, disk, n - 1, st0);
    assert StateAt(r, names, disk, n) == ProcessNote(r, names, n - 1, st0).after;
    ProcessNoteEffect(r, names, n - 1, st0);
  }

  /** The index and the change summary only ever grow from their headings,
      and each note adds at most one write. */
  lemma {:induction false} RunPrefixGrows(r: Renderer, names: seq<Bytes>, disk: Disk, n: nat)
    requires AllNoteNames(names) && n <= |names|
    requires Completes(r, names, disk, n)
    ensures var st := StateAt(r, names, disk, n);
      IsPrefix(IndexHead, st.readme) && IsPrefix(ChangeHead, st.change) && |st.writes| <= n
  {
    if n > 0 {
      StepEffect(r, names, disk, n);
      RunPrefixGrows(r, names, disk, n - 1);
      var st0, st := StateAt(r, names, disk, n - 1), StateAt(r, names, disk, n);
      var value := names[n - 1];
      var note := r.note(n - 1, st0.disk[value]);
      var stale := Stale(st0.disk, RealName(value), note);
      PrefixExtend(IndexHead, st0.readme, r.entry(value, Excerpt(st0.disk[value]).value));
      PrefixExtend(ChangeHead, st0.change, if stale then ChangeItem(RealName(value)) else []);
    } else {
      assert StateAt(r, names, disk, 0) == Start(disk);
    }
  }

  /** The real names of the first `n` notes: the only files a run over
      them may write. */
  function RealNames(names: seq<Bytes>, n: nat): set<Bytes>
    requires AllNoteNames(names) && n <= |names|
  {
    set k | 0 <= k < n :: RealName(names[k])
  }

  lemma RealNamesStep(names: seq<Bytes>, n: nat)
    requires AllNoteNames(names) && 0 < n <= |names|
    ensures RealNames(names, n) == RealNames(names, n - 1) + {RealName(names[n - 1])}
  {
  }

  /** The names a sequence of writes touches. */
  function Written(writes: seq<Write>): set<Bytes> {
    set i | 0 <= i < |writes| :: writes[i].name
  }

  lemma WrittenAppend(ws: seq<Write>, more: seq<Write>)
    ensures Written(ws + more) == Written(ws) + Written(more)
  {
    forall x ensures x in Written(ws + more) <==> x in Written(ws) + Written(more) {
      if x in Written(ws + more) {
        var i :| 0 <= i < |ws + more| && (ws + more)[i].name == x;
        if i >= |ws| {
          assert more[i - |ws|].name == x;
        }
      }
      if x in Written(ws) {
        var i :| 0 <= i < |ws| && ws[i].name == x;
        assert (ws + more)[i].name == x;
      }
      if x in Written(more) {
        var i :| 0 <= i < |more| && more[i].name == x;
        assert (ws + more)[|ws| + i].name == x;
      }
    }
  }

  /** A run only ever writes the real names of the notes it has processed,
      and every other file keeps its content. */
  lemma {:induction false} RunPrefixFootprint(r: Renderer, names: seq<Bytes>, disk: Disk, n: nat)
    requires AllNoteNames(names) && n <= |names|
    requires Completes(r, names, disk, n)
    ensures Written(StateAt(r, names, disk, n).writes) <= RealNames(names, n)
    ensures forall x | x !in RealNames(names, n) :: SameFile(StateAt(r, names, disk, n).disk, disk, x)
  {
    if n > 0 {
      StepEffect(r, names, disk, n);
      RunPrefixFootprint(r, names, disk, n - 1);
      RealNamesStep(names, n);
      var st0, st := StateAt(r, names, disk, n - 1), StateAt(r, names, disk, n);
      var value := names[n - 1];
      var realname, note := RealName(value), r.note(n - 1, st0.disk[value]);
      var more := if Stale(st0.disk, realname, note) then [Write(realname, note)] else [];
      WrittenAppend(st0.writes, more);
      assert Written(more) <= {realname};
      forall x | x !in RealNames(names, n) ensures SameFile(st.disk, disk, x) {
        assert x != realname && x !in RealNames(names, n - 1);
        assert SameFile(st.disk, st0.disk, x) && SameFile(st0.disk, disk, x);
      }
    } else {
      assert StateAt(r, names, disk, 0) == Start(disk);
    }
  }

  /** The whole loop over already sorted names. */
  function RunNotes(r: Renderer, names: seq<Bytes>, disk: Disk): Outcome
    requires AllNoteNames(names)
  {
    RunPrefix(r, names, disk, |names|)
  }

  /** Once a run has stopped, processing more notes changes nothing: the
      whole run ends with that failure. */
  lemma {:induction false} AbortedStays(r: Renderer, names: seq<Bytes>, disk: Disk, n: nat)
    requires AllNoteNames(names) && n <= |names|
    requires !Completes(r, names, disk, n)
    ensures RunNotes(r, names, disk) == RunPrefix(r, names, disk, n)
    decreases |names| - n
  {
    if n < |names| {
      StepAborted(r, names, disk, n);
      AbortedStays(r, names, disk, n + 1);
    }
  }

  /** The matching names of the listing, in ascending byte order. */
  function NotesOf(listing: seq<Bytes>): (names: seq<Bytes>)
    ensures AllNoteNames(names)
    ensures Sorted(names)
    ensures forall n :: n in names <==> n in listing && IsNoteName(n)
    ensures multiset(names) == multiset(Matching(listing))
  {
    var names := SortNames(Matching(listing));
    assert forall n :: n in names <==> n in multiset(names);
    names
  }

  /** The file the index is written to once the loop is done. */
  const ReadmeName: Bytes := Ascii("README.md")

  /** The write of the index to `README.md` after a completed loop; a failed
      run stops before it. The file then holds the index, it is logged as
      one more write, and no other file changes. */
  function Publish(o: Outcome): (p: Outcome)
    ensures p.Completed? <==> o.Completed?
    ensures o.Aborted? ==> p == o
    ensures o.Completed? ==>
      && p.after.readme == o.after.readme && p.after.change == o.after.change
      && p.after.writes == o.after.writes + [Write(ReadmeName, o.after.readme)]
      && ReadmeName in p.after.disk && p.after.disk[ReadmeName] == p.after.readme
      && forall x | x != ReadmeName :: SameFile(p.after.disk, o.after.disk, x)
  {
    match o
    case Aborted(_, _) => o
    case Completed(st) =>
      Completed(State(st.readme, st.change, st.writes + [Write(ReadmeName, st.readme)],
                      st.disk[ReadmeName := st.readme]))
  }

  /** One run of the builder over a directory: the loop over the sorted
      dated names, then the index written to `README.md`. */
  function Build(v: Variant, listing: seq<Bytes>, disk: Disk): Outcome {
    var names := NotesOf(listing);
    Publish(RunNotes(RendererFor(v, names), names, disk))
  }

  /** `nbytes = append(nbytes, line...)` for one footer link, where
      `nbytes` so far is `front` followed by the lines of `links`. */
  method AppendLink(v: Variant, ghost front: Bytes, nbytes: Bytes, ghost links: seq<Link>, l: Link)
    returns (r: Bytes)
    requires nbytes == front + RenderLinks(v, links)
    ensures r == front + RenderLinks(v, links + [l])
  {
    r := nbytes + RenderLink(v, l);
    FlatMapSnoc(links, l, l' => RenderLink(v, l'));
    AppendAssoc(front, RenderLinks(v, links), RenderLink(v, l));
  }

  /** The footer links of `filenames[key]` appended one line at a time to
      `front`, each only when the position calls for it. */
  method AppendFooter(v: Variant, names: seq<Bytes>, key: nat, front: Bytes) returns (nbytes: Bytes)
    requires AllNoteNames(names) && key < |names|
    ensures nbytes == front + RenderLinks(v, FooterLinks(v, names, key))
  {
    ghost var back: seq<Link> := if v.Clang? then [BackToIndex(v.dirname)] else [];
    ghost var prev: seq<Link> := if key != 0 then [Previous(RealName(names[key - 1]))] else [];
    ghost var next: seq<Link> := if key != |names| - 1 then [Next(RealName(names[key + 1]))] else [];
    nbytes := front;
    assert nbytes == front + RenderLinks(v, []);
    if v.Clang? {
      nbytes := AppendLink(v, front, nbytes, [], BackToIndex(v.dirname));
    }
    assert [] + back == back;
    assert nbytes == front + RenderLinks(v, back);
    if key != 0 {
      nbytes := AppendLink(v, front, nbytes, back, Previous(RealName(names[key - 1])));
    } else {
      assert back + prev == back;
    }
    assert nbytes == front + RenderLinks(v, back + prev);
    if key != |names| - 1 {
      nbytes := AppendLink(v, front, nbytes, back + prev, Next(RealName(names[key + 1])));
    } else {
      assert back + prev + next == back + prev;
    }
    assert nbytes == front + RenderLinks(v, back + prev + next);
  }

  /** The new content of `filenames[key]` as the loop assembles it: the
      title line, the old content, the links heading, then the footer. */
  method RenderNoteLoop(v: Variant, names: seq<Bytes>, key: nat, content: Bytes) returns (nbytes: Bytes)
    requires AllNoteNames(names) && key < |names|
    ensures nbytes == RewriteNote(v, names, key, content)
  {
    var title := DecorateLoop(RealName(names[key]));
    var header := title + Ascii("\n----\n\n");
    nbytes := AppendFooter(v, names, key, header + content + LinksHeading);
    AppendAssoc(header + content, LinksHeading, RenderLinks(v, FooterLinks(v, names, key)));
  }

  /** The skip test of the loop: golang compares with its own
      `compareBytes`, clang with `bytes.Equal`; a file that cannot be read
      is never up to date. */
  method UpToDateLoop(v: Variant, disk: Disk, realname: Bytes, note: Bytes) returns (r: bool)
    ensures r == UpToDate(v, disk, realname, note)
  {
    r := false;
    if realname in disk {
      match v
      case Golang =>
        var c := CompareBytesLoop(note, disk[realname]);
        r := c == 0;
      case Clang(_) =>
        r := disk[realname] == note;
    }
  }

  /** The body of the loop for `filenames[key]`. */
  method ProcessNoteLoop(v: Variant, names: seq<Bytes>, key: nat, st: State) returns (o: Outcome)
    requires AllNoteNames(names) && key < |names|
    ensures o == ProcessNote(RendererFor(v, names), names, key, st)
  {
    var value := names[key];
    if value !in st.disk {
      return Aborted(CannotOpen(value), st);
    }
    var content := st.disk[value];
    var excerpt := Excerpt(content);
    if excerpt.None? {
      return Aborted(TooFewLines(value), st);
    }
    var readme := st.readme + IndexEntry(v, value, excerpt.value);
    var realname := RealName(value);
    var nbytes := RenderNoteLoop(v, names, key, content);
    var upToDate := UpToDateLoop(v, st.disk, realname, nbytes);
    RendererTexts(v, names, key, excerpt.value, content);
    if upToDate {
      o := Completed(st.(readme := readme));
    } else {
      o := Completed(State(readme, st.change + ChangeItem(realname),
                           st.writes + [Write(realname, nbytes)], st.disk[realname := nbytes]));
    }
  }

  /** The loop of `main` over already sorted names, stopping at the first
      fatal error. */
  method RunLoop(v: Variant, names: seq<Bytes>, disk: Disk) returns (o: Outcome)
    requires AllNoteNames(names)
    ensures o == RunNotes(RendererFor(v, names), names, disk)
  {
    ghost var r := RendererFor(v, names);
    var st := Start(disk);
    var key := 0;
    while key < |names|
      invariant key <= |names|
      invariant RunPrefix(r, names, disk, key) == Completed(st)
    {
      var step := ProcessNoteLoop(v, names, key, st);
      RunPrefixStep(r, names, disk, key, st);
      if step.Aborted? {
        AbortedStays(r, names, disk, key + 1);
        return step;
      }
      st := step.after;
      key := key + 1;
    }
    o := Completed(st);
  }

  /** The loop that keeps the listed names the pattern matches, in listing
      order. */
  method FilterNotes(listing: seq<Bytes>) returns (filenames: seq<Bytes>)
    ensures filenames == Matching(listing)
  {
    filenames := [];
    var i := 0;
    while i < |listing|
      invariant i <= |listing|
      invariant filenames == Matching(listing[..i])
    {
      assert listing[..i + 1][..i] == listing[..i];
      if IsNoteName(listing[i]) {
        filenames := filenames + [listing[i]];
      }
      i := i + 1;
    }
    assert listing[..i] == listing;
  }

  /** `main` as written: filter the listing with the pattern, sort, run the
      loop, and write the index to `README.md` when the loop completes. */
  method BuildSite(v: Variant, listing: seq<Bytes>, disk: Disk) returns (o: Outcome)
    ensures o == Build(v, listing, disk)
  {
    var filenames := FilterNotes(listing);
    var names := SortNames(filenames);
    var run := RunLoop(v, names, disk);
    o := Publish(run);
  }
}
