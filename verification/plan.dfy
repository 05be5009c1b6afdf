/** What a whole run does, stated without the loop. When no real name is
    itself one of the dated names, every step reads its dated file as it was
    before the run, so the run completes exactly when every dated file can
    be read. When in addition no two notes share a real name, every step
    decides whether to write against the disk as it was before the run; the
    run is then a plan computed from the initial disk alone. Idempotence
    follows: a second run over the result writes nothing but the index. */
module Plan {
  import opened ByteStrings
  import opened Sorting
  import opened NoteNames
  import opened Render
  import opened Builder

  /** The first `n` dated files can be opened and hold two lines. */
  predicate Readable(names: seq<Bytes>, disk: Disk, n: nat)
    requires n <= |names|
  {
    forall k | 0 <= k < n :: names[k] in disk && Excerpt(disk[names[k]]).Some?
  }

  /** No note is stored under the name of a dated file. */
  predicate NoAliasing(names: seq<Bytes>)
    requires AllNoteNames(names)
  {
    forall i, j | 0 <= i < |names| && 0 <= j < |names| :: RealName(names[i]) != names[j]
  }

  /** No two notes are stored under the same name. */
  predicate DistinctRealNames(names: seq<Bytes>)
    requires AllNoteNames(names)
  {
    forall i, j | 0 <= i < j < |names| :: RealName(names[i]) != RealName(names[j])
  }

  /** The rewritten note `k`, from its dated file on `disk`. */
  function NoteAt(r: Renderer, names: seq<Bytes>, disk: Disk, k: nat): Bytes
    requires k < |names| && names[k] in disk
  {
    r.note(k, disk[names[k]])
  }

  /** The index entry of note `k`, from its dated file on `disk`. */
  function EntryAt(r: Renderer, names: seq<Bytes>, disk: Disk, k: nat): Bytes
    requires k < |names| && names[k] in disk && Excerpt(disk[names[k]]).Some?
  {
    r.entry(names[k], Excerpt(disk[names[k]]).value)
  }

  /** The index entries of the first `n` notes, in order. */
  function Entries(r: Renderer, names: seq<Bytes>, disk: Disk, n: nat): Bytes
    requires n <= |names| && Readable(names, disk, n)
    decreases n
  {
    if n == 0 then [] else Entries(r, names, disk, n - 1) + EntryAt(r, names, disk, n - 1)
  }

  /** The writes of the first `n` notes: each note whose real name is
      missing or stale on `disk`, in order. */
  function PlannedWrites(r: Renderer, names: seq<Bytes>, disk: Disk, n: nat): seq<Write>
    requires AllNoteNames(names) && n <= |names| && Readable(names, disk, n)
    decreases n
  {
    if n == 0 then []
    else
      var realname, note := RealName(names[n - 1]), NoteAt(r, names, disk, n - 1);
      PlannedWrites(r, names, disk, n - 1) + if Stale(disk, realname, note) then [Write(realname, note)] else []
  }

  /** One `update <name>;` item per write, in order. */
  function ChangeItems(writes: seq<Write>): Bytes {
    FlatMap(writes, (w: Write) => ChangeItem(w.name))
  }

  /** `disk` with each of the first `n` notes stored under its real name. */
  function PlannedDisk(r: Renderer, names: seq<Bytes>, disk: Disk, n: nat): Disk
    requires AllNoteNames(names) && n <= |names| && Readable(names, disk, n)
    decreases n
  {
    if n == 0 then disk
    else PlannedDisk(r, names, disk, n - 1)[RealName(names[n - 1]) := NoteAt(r, names, disk, n - 1)]
  }

  /** The state the plan predicts after the first `n` notes. */
  function Planned(r: Renderer, names: seq<Bytes>, disk: Disk, n: nat): State
    requires AllNoteNames(names) && n <= |names| && Readable(names, disk, n)
  {
    var writes := PlannedWrites(r, names, disk, n);
    State(IndexHead + Entries(r, names, disk, n), ChangeHead + ChangeItems(writes), writes,
          PlannedDisk(r, names, disk, n))
  }

  /** The plan leaves every file but the first `n` real names alone. */
  lemma {:induction false} PlannedDiskOutside(r: Renderer, names: seq<Bytes>, disk: Disk, n: nat, x: Bytes)
    requires AllNoteNames(names) && n <= |names| && Readable(names, disk, n)
    requires x !in RealNames(names, n)
    ensures SameFile(PlannedDisk(r, names, disk, n), disk, x)
  {
    if n > 0 {
      assert RealName(names[n - 1]) in RealNames(names, n);
      RealNamesStep(names, n);
      PlannedDiskOutside(r, names, disk, n - 1, x);
    }
  }

  /** With distinct real names, the plan leaves each note under its real
      name: no later note overwrites it. */
  lemma {:induction false} PlannedDiskHolds(r: Renderer, names: seq<Bytes>, disk: Disk, n: nat, k: nat)
    requires AllNoteNames(names) && DistinctRealNames(names)
    requires k < n <= |names| && Readable(names, disk, n)
    ensures var d := PlannedDisk(r, names, disk, n);
      RealName(names[k]) in d && d[RealName(names[k])] == NoteAt(r, names, disk, k)
  {
    if k < n - 1 {
      assert RealName(names[k]) != RealName(names[n - 1]);
      PlannedDiskHolds(r, names, disk, n - 1, k);
    }
  }

  /** The planned writes are exactly the notes whose real name is missing
      or stale on the initial disk, each with its rewritten content. */
  lemma {:induction false} PlannedWritesStale(r: Renderer, names: seq<Bytes>, disk: Disk, n: nat)
    requires AllNoteNames(names) && n <= |names| && Readable(names, disk, n)
    ensures forall w | w in PlannedWrites(r, names, disk, n) ::
      Stale(disk, w.name, w.content) &&
      exists k | 0 <= k < n :: w == Write(RealName(names[k]), NoteAt(r, names, disk, k))
    ensures forall k | 0 <= k < n && Stale(disk, RealName(names[k]), NoteAt(r, names, disk, k)) ::
      Write(RealName(names[k]), NoteAt(r, names, disk, k)) in PlannedWrites(r, names, disk, n)
  {
    if n > 0 {
      PlannedWritesStale(r, names, disk, n - 1);
      var w0 := PlannedWrites(r, names, disk, n - 1);
      var last := Write(RealName(names[n - 1]), NoteAt(r, names, disk, n - 1));
      var ws := PlannedWrites(r, names, disk, n);
      assert ws == w0 + if Stale(disk, last.name, last.content) then [last] else [];
      forall w | w in ws
        ensures Stale(disk, w.name, w.content)
        ensures exists k | 0 <= k < n :: w == Write(RealName(names[k]), NoteAt(r, names, disk, k))
      {
        if w in w0 {
          var k :| 0 <= k < n - 1 && w == Write(RealName(names[k]), NoteAt(r, names, disk, k));
          assert 0 <= k < n;
        } else {
          assert w == last;
          assert 0 <= n - 1 < n;
        }
      }
      forall k | 0 <= k < n && Stale(disk, RealName(names[k]), NoteAt(r, names, disk, k))
        ensures Write(RealName(names[k]), NoteAt(r, names, disk, k)) in ws
      {
        if k < n - 1 {
          assert Write(RealName(names[k]), NoteAt(r, names, disk, k)) in w0;
        } else {
          assert last in ws;
        }
      }
    }
  }

  /** Under the two naming conditions, a run over readable dated files
      completes every note, and its state is the plan computed from the
      initial disk. */
  lemma {:induction false} RunFollowsPlan(r: Renderer, names: seq<Bytes>, disk: Disk, n: nat)
    requires AllNoteNames(names) && NoAliasing(names) && DistinctRealNames(names)
    requires n <= |names| && Readable(names, disk, n)
    ensures Completes(r, names, disk, n)
    ensures StateAt(r, names, disk, n) == Planned(r, names, disk, n)
  {
    if n == 0 {
      assert IndexHead + [] == IndexHead && ChangeHead + [] == ChangeHead;
    } else {
      RunFollowsPlan(r, names, disk, n - 1);
      var st0 := StateAt(r, names, disk, n - 1);
      var value := names[n - 1];
      var realname := RealName(value);
      assert value !in RealNames(names, n - 1);
      PlannedDiskOutside(r, names, disk, n - 1, value);
      assert realname !in RealNames(names, n - 1);
      PlannedDiskOutside(r, names, disk, n - 1, realname);
      StepStops(r, names, disk, n - 1);
      StepEffect(r, names, disk, n);
      PlannedStep(r, names, disk, n);
      var note := NoteAt(r, names, disk, n - 1);
      assert st0.disk[value] == disk[value];
      assert r.note(n - 1, st0.disk[value]) == note;
      assert r.entry(value, Excerpt(st0.disk[value]).value) == EntryAt(r, names, disk, n - 1);
      assert Stale(st0.disk, realname, note) == Stale(disk, realname, note);
    }
  }

  /** One more note extends the plan the way one loop iteration extends the
      state, with staleness judged against the initial disk. */
  lemma PlannedStep(r: Renderer, names: seq<Bytes>, disk: Disk, n: nat)
    requires AllNoteNames(names) && 0 < n <= |names| && Readable(names, disk, n)
    ensures var p0, realname, note := Planned(r, names, disk, n - 1), RealName(names[n - 1]), NoteAt(r, names, disk, n - 1);
      var stale := Stale(disk, realname, note);
      Planned(r, names, disk, n) ==
        State(p0.readme + EntryAt(r, names, disk, n - 1),
              p0.change + (if stale then ChangeItem(realname) else []),
              p0.writes + (if stale then [Write(realname, note)] else []),
              p0.disk[realname := note])
  {
    var realname, note := RealName(names[n - 1]), NoteAt(r, names, disk, n - 1);
    var w0 := PlannedWrites(r, names, disk, n - 1);
    AppendAssoc(IndexHead, Entries(r, names, disk, n - 1), EntryAt(r, names, disk, n - 1));
    if Stale(disk, realname, note) {
      FlatMapSnoc(w0, Write(realname, note), (w: Write) => ChangeItem(w.name));
      AppendAssoc(ChangeHead, ChangeItems(w0), ChangeItem(realname));
    } else {
      assert w0 + [] == w0;
      assert ChangeHead + ChangeItems(w0) + [] == ChangeHead + ChangeItems(w0);
    }
  }

  /** The first dated file that cannot be read stops the run: it fails on
      that file, with the state the plan predicts for the notes before it. */
  lemma RunStopsAtFirstUnreadable(r: Renderer, names: seq<Bytes>, disk: Disk, k: nat)
    requires AllNoteNames(names) && NoAliasing(names) && DistinctRealNames(names)
    requires k < |names| && Readable(names, disk, k)
    requires !(names[k] in disk && Excerpt(disk[names[k]]).Some?)
    ensures RunNotes(r, names, disk) ==
      Aborted(if names[k] !in disk then CannotOpen(names[k]) else TooFewLines(names[k]),
              Planned(r, names, disk, k))
  {
    RunFollowsPlan(r, names, disk, k);
    assert names[k] !in RealNames(names, k);
    PlannedDiskOutside(r, names, disk, k, names[k]);
    StepStops(r, names, disk, k);
    AbortedStays(r, names, disk, k + 1);
  }

  /** When no real name is a dated name, the first `n` notes complete
      exactly when their dated files can be read: no write of the run
      touches a dated file, so each note reads its file as it was. */
  lemma {:induction false} CompletesPrefixIffReadable(r: Renderer, names: seq<Bytes>, disk: Disk, n: nat)
    requires AllNoteNames(names) && NoAliasing(names) && n <= |names|
    ensures Completes(r, names, disk, n) <==> Readable(names, disk, n)
  {
    if n > 0 {
      CompletesPrefixIffReadable(r, names, disk, n - 1);
      var value := names[n - 1];
      if Completes(r, names, disk, n - 1) {
        RunPrefixFootprint(r, names, disk, n - 1);
        assert value !in RealNames(names, n - 1);
        assert SameFile(StateAt(r, names, disk, n - 1).disk, disk, value);
        StepStops(r, names, disk, n - 1);
      } else {
        StepAborted(r, names, disk, n - 1);
        assert !Readable(names, disk, n);
      }
    }
  }

  /** When no real name is a dated name, a run that gets through the first
      `n` notes has read each of their dated files as it was before the run,
      so its index is the heading followed by their entries in sorted order.
      Only the writes, the change summary and the disk need distinct real
      names to follow the plan. */
  lemma {:induction false} IndexFollowsEntries(r: Renderer, names: seq<Bytes>, disk: Disk, n: nat)
    requires AllNoteNames(names) && NoAliasing(names) && n <= |names|
    requires Completes(r, names, disk, n)
    ensures Readable(names, disk, n)
    ensures StateAt(r, names, disk, n).readme == IndexHead + Entries(r, names, disk, n)
  {
    CompletesPrefixIffReadable(r, names, disk, n);
    if n == 0 {
      assert StateAt(r, names, disk, 0) == Start(disk);
      assert IndexHead + [] == IndexHead;
    } else {
      StepEffect(r, names, disk, n);
      IndexFollowsEntries(r, names, disk, n - 1);
      RunPrefixFootprint(r, names, disk, n - 1);
      var value := names[n - 1];
      assert value !in RealNames(names, n - 1);
      assert SameFile(StateAt(r, names, disk, n - 1).disk, disk, value);
      AppendAssoc(IndexHead, Entries(r, names, disk, n - 1), EntryAt(r, names, disk, n - 1));
    }
  }

  /** When no real name is a dated name, the first dated file that cannot be
      read stops the run with a failure naming it, and the index built so
      far holds the entries of the notes before it. */
  lemma RunFailsAtFirstUnreadable(r: Renderer, names: seq<Bytes>, disk: Disk, k: nat)
    requires AllNoteNames(names) && NoAliasing(names)
    requires k < |names| && Readable(names, disk, k)
    requires !(names[k] in disk && Excerpt(disk[names[k]]).Some?)
    ensures var o := RunNotes(r, names, disk);
      && o.Aborted?
      && o.failure == (if names[k] !in disk then CannotOpen(names[k]) else TooFewLines(names[k]))
      && o.before.readme == IndexHead + Entries(r, names, disk, k)
  {
    CompletesPrefixIffReadable(r, names, disk, k);
    IndexFollowsEntries(r, names, disk, k);
    RunPrefixFootprint(r, names, disk, k);
    assert names[k] !in RealNames(names, k);
    assert SameFile(StateAt(r, names, disk, k).disk, disk, names[k]);
    StepStops(r, names, disk, k);
    AbortedStays(r, names, disk, k + 1);
  }

  /** When no real name is a dated name, a run completes exactly when every
      dated file can be read. */
  lemma CompletesIffReadable(r: Renderer, names: seq<Bytes>, disk: Disk)
    requires AllNoteNames(names) && NoAliasing(names)
    ensures RunNotes(r, names, disk).Completed? <==> Readable(names, disk, |names|)
  {
    CompletesPrefixIffReadable(r, names, disk, |names|);
  }

  /** When every note among the first `n` is already stored, as it would be
      rewritten, under its real name, those notes write nothing, and each
      reads the disk as it was. */
  lemma {:induction false} UpToDatePrefix(r: Renderer, names: seq<Bytes>, disk: Disk, n: nat)
    requires AllNoteNames(names) && n <= |names| && Readable(names, disk, n)
    requires forall k | 0 <= k < n :: !Stale(disk, RealName(names[k]), NoteAt(r, names, disk, k))
    ensures Completes(r, names, disk, n)
    ensures StateAt(r, names, disk, n) == State(IndexHead + Entries(r, names, disk, n), ChangeHead, [], disk)
  {
    if n == 0 {
      assert IndexHead + [] == IndexHead;
    } else {
      UpToDatePrefix(r, names, disk, n - 1);
      StepStops(r, names, disk, n - 1);
      StepEffect(r, names, disk, n);
      var realname, note := RealName(names[n - 1]), NoteAt(r, names, disk, n - 1);
      assert !Stale(disk, realname, note);
      assert disk[realname := note] == disk;
      AppendAssoc(IndexHead, Entries(r, names, disk, n - 1), EntryAt(r, names, disk, n - 1));
    }
  }

  /** Two disks that agree on the first `n` dated files give the same
      entries and the same rewritten notes. */
  lemma {:induction false} EntriesAgree(r: Renderer, names: seq<Bytes>, d1: Disk, d2: Disk, n: nat)
    requires n <= |names| && Readable(names, d1, n)
    requires forall k | 0 <= k < n :: SameFile(d1, d2, names[k])
    ensures Readable(names, d2, n)
    ensures Entries(r, names, d1, n) == Entries(r, names, d2, n)
  {
    if n > 0 {
      EntriesAgree(r, names, d1, d2, n - 1);
      assert SameFile(d1, d2, names[n - 1]);
    }
  }

  /** A run over a disk where every note is already up to date completes
      with the full index, an empty change summary and no writes, and
      leaves the disk as it was. */
  lemma RunUpToDate(r: Renderer, names: seq<Bytes>, disk: Disk)
    requires AllNoteNames(names) && Readable(names, disk, |names|)
    requires forall k | 0 <= k < |names| :: !Stale(disk, RealName(names[k]), NoteAt(r, names, disk, k))
    ensures RunNotes(r, names, disk) ==
      Completed(State(IndexHead + Entries(r, names, disk, |names|), ChangeHead, [], disk))
  {
    UpToDatePrefix(r, names, disk, |names|);
  }

  /** Running the loop again over the disk a completed run left behind
      writes nothing and produces the same index. */
  lemma RunIdempotent(r: Renderer, names: seq<Bytes>, disk: Disk, st: State)
    requires AllNoteNames(names) && NoAliasing(names) && DistinctRealNames(names)
    requires RunNotes(r, names, disk) == Completed(st)
    ensures RunNotes(r, names, st.disk) == Completed(State(st.readme, ChangeHead, [], st.disk))
  {
    var n := |names|;
    CompletesIffReadable(r, names, disk);
    RunFollowsPlan(r, names, disk, n);
    var d2 := st.disk;
    assert d2 == PlannedDisk(r, names, disk, n);
    forall k | 0 <= k < n ensures SameFile(disk, d2, names[k]) {
      assert names[k] !in RealNames(names, n);
      PlannedDiskOutside(r, names, disk, n, names[k]);
    }
    EntriesAgree(r, names, disk, d2, n);
    forall k | 0 <= k < n ensures !Stale(d2, RealName(names[k]), NoteAt(r, names, d2, k)) {
      PlannedDiskHolds(r, names, disk, n, k);
      assert SameFile(disk, d2, names[k]);
    }
    RunUpToDate(r, names, d2);
  }

  /** The same holds when one more file, neither a dated name nor a real
      name, is added to the disk the run left. */
  lemma RunSettlesBeside(r: Renderer, names: seq<Bytes>, disk: Disk, x: Bytes, c: Bytes)
    requires AllNoteNames(names) && NoAliasing(names) && DistinctRealNames(names)
    requires Readable(names, disk, |names|)
    requires x !in names && x !in RealNames(names, |names|)
    ensures RunNotes(r, names, disk).Completed?
    ensures var st := RunNotes(r, names, disk).after; var d := st.disk[x := c];
      RunNotes(r, names, d) == Completed(State(st.readme, ChangeHead, [], d))
  {
    var n := |names|;
    CompletesIffReadable(r, names, disk);
    RunFollowsPlan(r, names, disk, n);
    var st := RunNotes(r, names, disk).after;
    var d := st.disk[x := c];
    forall k | 0 <= k < n ensures SameFile(disk, d, names[k]) {
      assert names[k] !in RealNames(names, n);
      PlannedDiskOutside(r, names, disk, n, names[k]);
      assert names[k] != x;
    }
    EntriesAgree(r, names, disk, d, n);
    forall k | 0 <= k < n ensures !Stale(d, RealName(names[k]), NoteAt(r, names, d, k)) {
      PlannedDiskHolds(r, names, disk, n, k);
      assert RealName(names[k]) in RealNames(names, n);
      assert SameFile(disk, d, names[k]);
    }
    RunUpToDate(r, names, d);
  }

  /** Writing the index a second time, when the run wrote nothing and the
      disk already holds that index, changes no file. */
  lemma PublishSettled(first: Outcome, second: Outcome)
    requires first.Completed?
    requires var st := first.after;
      second == Completed(State(st.readme, ChangeHead, [], st.disk[ReadmeName := st.readme]))
    ensures var p := Publish(first).after;
      Publish(second) == Completed(State(p.readme, ChangeHead, [Write(ReadmeName, p.readme)], p.disk))
  {
    var st := first.after;
    assert st.disk[ReadmeName := st.readme][ReadmeName := st.readme] == st.disk[ReadmeName := st.readme];
  }

  /** A run over readable notes completes, and a second run over its result
      writes nothing and produces the same index. */
  lemma RunSettles(r: Renderer, names: seq<Bytes>, disk: Disk)
    requires AllNoteNames(names) && NoAliasing(names) && DistinctRealNames(names)
    requires Readable(names, disk, |names|)
    ensures RunNotes(r, names, disk).Completed?
    ensures var st := RunNotes(r, names, disk).after;
      RunNotes(r, names, st.disk) == Completed(State(st.readme, ChangeHead, [], st.disk))
  {
    CompletesIffReadable(r, names, disk);
    RunIdempotent(r, names, disk, RunNotes(r, names, disk).after);
  }

  /** A completed run over two notes sharing a real name reads both dated
      files as they were, and leaves the real name holding the second note. */
  lemma TwoNotesFirstRun(r: Renderer, names: seq<Bytes>, disk: Disk, st: State)
    requires AllNoteNames(names) && |names| == 2 && NoAliasing(names)
    requires RealName(names[0]) == RealName(names[1])
    requires RunNotes(r, names, disk) == Completed(st)
    ensures names[0] in disk && names[1] in disk
    ensures Excerpt(disk[names[0]]).Some? && Excerpt(disk[names[1]]).Some?
    ensures st.readme == IndexHead + r.entry(names[0], Excerpt(disk[names[0]]).value)
                                   + r.entry(names[1], Excerpt(disk[names[1]]).value)
    ensures st.disk == disk[RealName(names[0]) := r.note(1, disk[names[1]])]
  {
    var x := RealName(names[0]);
    assert x != names[1];
    StepEffect(r, names, disk, 2);
    StepEffect(r, names, disk, 1);
    assert StateAt(r, names, disk, 0) == Start(disk);
  }

  /** A run over two notes sharing a real name, on a disk where the real name
      holds the second note and the first note differs from it, writes both. */
  lemma TwoNotesSecondRun(r: Renderer, names: seq<Bytes>, d: Disk)
    requires AllNoteNames(names) && |names| == 2 && NoAliasing(names)
    requires RealName(names[0]) == RealName(names[1])
    requires names[0] in d && names[1] in d
    requires Excerpt(d[names[0]]).Some? && Excerpt(d[names[1]]).Some?
    requires var x := RealName(names[0]);
      x in d && d[x] == r.note(1, d[names[1]]) != r.note(0, d[names[0]])
    ensures var x, n0, n1 := RealName(names[0]), r.note(0, d[names[0]]), r.note(1, d[names[1]]);
      var e0, e1 := r.entry(names[0], Excerpt(d[names[0]]).value), r.entry(names[1], Excerpt(d[names[1]]).value);
      RunNotes(r, names, d) ==
      Completed(State(IndexHead + e0 + e1, ChangeHead + ChangeItem(x) + ChangeItem(x), [Write(x, n0), Write(x, n1)], d))
  {
    var x, n0, n1 := RealName(names[0]), r.note(0, d[names[0]]), r.note(1, d[names[1]]);
    assert x != names[1];
    StepStops(r, names, d, 0);
    assert StateAt(r, names, d, 0) == Start(d);
    assert Completes(r, names, d, 1);
    StepStops(r, names, d, 1);
    StepEffect(r, names, d, 1);
    assert Completes(r, names, d, 2);
    StepEffect(r, names, d, 2);
    assert [] + [Write(x, n0)] + [Write(x, n1)] == [Write(x, n0), Write(x, n1)];
    assert d[x := n0][x := n1] == d;
  }

  /** Why distinct real names are needed: when two notes share a real name
      and get different texts, the second note overwrites the first on every
      run, so a second run writes both again and logs both. */
  lemma TwoNotesOneName(r: Renderer, names: seq<Bytes>, disk: Disk, st: State)
    requires AllNoteNames(names) && |names| == 2 && NoAliasing(names)
    requires RealName(names[0]) == RealName(names[1])
    requires RunNotes(r, names, disk) == Completed(st)
    ensures names[0] in disk && names[1] in disk
    ensures var x, n0, n1 := RealName(names[0]), r.note(0, disk[names[0]]), r.note(1, disk[names[1]]);
      n0 != n1 ==>
        RunNotes(r, names, st.disk) ==
        Completed(State(st.readme, ChangeHead + ChangeItem(x) + ChangeItem(x), [Write(x, n0), Write(x, n1)], st.disk))
  {
    TwoNotesFirstRun(r, names, disk, st);
    var x := RealName(names[0]);
    assert x != names[0] && x != names[1];
    if r.note(0, disk[names[0]]) != r.note(1, disk[names[1]]) {
      TwoNotesSecondRun(r, names, st.disk);
    }
  }

  /** Text around two different pieces keeps them different. */
  lemma FramedDiffer(p: Bytes, a: Bytes, b: Bytes, rest: Bytes)
    requires a != b
    ensures p + a + rest != p + b + rest
  {
    if |a| == |b| {
      assert (p + a + rest)[|p|..|p| + |a|] == a;
      assert (p + b + rest)[|p|..|p| + |b|] == b;
    }
  }

  /** The bytes of a previous or next link that follow its label. */
  function LinkTail(x: Bytes): Bytes {
    Ascii(": [") + Decorate(x) + Ascii("](") + x + Ascii(")\n")
  }

  /** Moves the last five pieces of a link under one parenthesis, with the
      pieces kept opaque so their definitions are not unfolded. */
  lemma Regroup(a: Bytes, b: Bytes, c: Bytes, d: Bytes, e: Bytes, f: Bytes, g: Bytes)
    ensures a + b + c + d + e + f + g == a + b + (c + d + e + f + g)
  {
  }

  /** Flattens a rewritten note's header, body and footer parts, with the
      pieces kept opaque. */
  lemma RegroupFooter(a: Bytes, b: Bytes, c: Bytes, d: Bytes, e: Bytes)
    ensures a + b + (c + (d + e)) == a + b + c + d + e
  {
  }

  lemma NeighbourLinkShape(v: Variant, x: Bytes)
    ensures RenderLink(v, Previous(x)) == Ascii("+ ") + PreviousLabel(v) + LinkTail(x)
    ensures RenderLink(v, Next(x)) == Ascii("+ ") + NextLabel(v) + LinkTail(x)
  {
    var d := Decorate(x);
    Regroup(Ascii("+ "), PreviousLabel(v), Ascii(": ["), d, Ascii("]("), x, Ascii(")\n"));
    Regroup(Ascii("+ "), NextLabel(v), Ascii(": ["), d, Ascii("]("), x, Ascii(")\n"));
  }

  /** A previous link and a next link to the same note never render alike:
      in the golang variant their labels differ in length, in the clang
      variant they differ in their third byte. */
  lemma NeighbourLinksDiffer(v: Variant, x: Bytes)
    ensures RenderLink(v, Previous(x)) != RenderLink(v, Next(x))
  {
    if v.Golang? {
      assert |PreviousLabel(v)| == 8 && |NextLabel(v)| == 4;
    } else {
      assert PreviousLabel(v)[2] != NextLabel(v)[2];
    }
    FramedDiffer(Ascii("+ "), PreviousLabel(v), NextLabel(v), LinkTail(x));
    NeighbourLinkShape(v, x);
  }

  lemma RenderLinksSnoc(v: Variant, links: seq<Link>, l: Link)
    ensures RenderLinks(v, links + [l]) == RenderLinks(v, links) + RenderLink(v, l)
  {
    FlatMapSnoc(links, l, l' => RenderLink(v, l'));
  }

  /** Of two notes, the first ends on a link to the second and the second
      on a link back to the first. */
  lemma NoteOfTwo(v: Variant, names: seq<Bytes>, k: nat, body: Bytes)
    requires AllNoteNames(names) && |names| == 2 && k < 2
    ensures var back := if v.Clang? then [BackToIndex(v.dirname)] else [];
      var link := if k == 0 then Next(RealName(names[1])) else Previous(RealName(names[0]));
      RewriteNote(v, names, k, body) ==
        NoteHeader(names[k]) + body + LinksHeading + RenderLinks(v, back) + RenderLink(v, link)
  {
    var back := if v.Clang? then [BackToIndex(v.dirname)] else [];
    var link := if k == 0 then Next(RealName(names[1])) else Previous(RealName(names[0]));
    assert FooterLinks(v, names, k) == back + [link];
    RenderLinksSnoc(v, back, link);
    var tail := RenderLinks(v, back) + RenderLink(v, link);
    assert NoteFooter(v, names, k) == LinksHeading + tail;
    RegroupFooter(NoteHeader(names[k]), body, LinksHeading, RenderLinks(v, back), RenderLink(v, link));
  }

  /** The first and the second of two notes differ even with the same body
      when they share a real name. */
  lemma FirstAndSecondDiffer(v: Variant, names: seq<Bytes>, body: Bytes)
    requires AllNoteNames(names) && |names| == 2
    requires RealName(names[0]) == RealName(names[1])
    ensures RewriteNote(v, names, 0, body) != RewriteNote(v, names, 1, body)
  {
    var x := RealName(names[0]);
    var back := if v.Clang? then [BackToIndex(v.dirname)] else [];
    NoteOfTwo(v, names, 0, body);
    NoteOfTwo(v, names, 1, body);
    var a := NoteHeader(names[0]) + body + LinksHeading + RenderLinks(v, back);
    assert NoteHeader(names[0]) == NoteHeader(names[1]);
    NeighbourLinksDiffer(v, x);
    FramedDiffer(a, RenderLink(v, Next(x)), RenderLink(v, Previous(x)), []);
    assert a + RenderLink(v, Next(x)) + [] == a + RenderLink(v, Next(x));
    assert a + RenderLink(v, Previous(x)) + [] == a + RenderLink(v, Previous(x));
  }

  /** Two readable notes sharing a real name: the run gets through both,
      since writing the real name touches neither dated file. */
  lemma TwoNotesComplete(r: Renderer, names: seq<Bytes>, d: Disk)
    requires AllNoteNames(names) && |names| == 2 && NoAliasing(names)
    requires RealName(names[0]) == RealName(names[1])
    requires names[0] in d && names[1] in d
    requires Excerpt(d[names[0]]).Some? && Excerpt(d[names[1]]).Some?
    ensures RunNotes(r, names, d).Completed?
  {
    assert RealName(names[0]) != names[1];
    StepStops(r, names, d, 0);
    assert StateAt(r, names, d, 0) == Start(d);
    assert Completes(r, names, d, 1);
    StepEffect(r, names, d, 1);
    StepStops(r, names, d, 1);
  }

  /** Two dated copies of one text under one real name: the build never
      settles, every run rewrites the real name twice. */
  lemma SharedRealNameNeverSettles(v: Variant, names: seq<Bytes>, disk: Disk)
    requires AllNoteNames(names) && |names| == 2 && NoAliasing(names)
    requires RealName(names[0]) == RealName(names[1])
    requires names[0] in disk && names[1] in disk && disk[names[0]] == disk[names[1]]
    requires Excerpt(disk[names[0]]).Some?
    ensures RunNotes(RendererFor(v, names), names, disk).Completed?
    ensures var x, st := RealName(names[0]), RunNotes(RendererFor(v, names), names, disk).after;
      && RunNotes(RendererFor(v, names), names, st.disk).Completed?
      && RunNotes(RendererFor(v, names), names, st.disk).after.writes ==
         [Write(x, RewriteNote(v, names, 0, disk[names[0]])), Write(x, RewriteNote(v, names, 1, disk[names[1]]))]
  {
    var r := RendererFor(v, names);
    TwoNotesComplete(r, names, disk);
    TwoNotesOneName(r, names, disk, RunNotes(r, names, disk).after);
    RendererTexts(v, names, 0, Excerpt(disk[names[0]]).value, disk[names[0]]);
    RendererTexts(v, names, 1, Excerpt(disk[names[1]]).value, disk[names[1]]);
    FirstAndSecondDiffer(v, names, disk[names[0]]);
  }

  /** A directory listing names each entry once. */
  predicate NoDuplicates(listing: seq<Bytes>) {
    forall i, j | 0 <= i < j < |listing| :: listing[i] != listing[j]
  }

  /** The naming conditions on the dated names of a listing: no real name
      matches the dated-name pattern or is `README.md`, and two different
      dated names have different real names. */
  predicate WellNamed(listing: seq<Bytes>) {
    && (forall a | a in listing && IsNoteName(a) :: !IsNoteName(RealName(a)) && RealName(a) != ReadmeName)
    && (forall a, b | a in listing && b in listing && IsNoteName(a) && IsNoteName(b) && a != b ::
          RealName(a) != RealName(b))
  }

  /** `README.md` is not a dated name. */
  lemma ReadmeNotDated()
    ensures !IsNoteName(ReadmeName)
  {
    assert ReadmeName[0] == 82;
    assert !Accepts(DatePrefix[0], ReadmeName[0]);
  }

  /** In a listing without duplicates every name occurs once or not at all. */
  lemma {:induction false} NoDuplicatesCount(s: seq<Bytes>, x: Bytes)
    requires NoDuplicates(s)
    ensures multiset(s)[x] == if x in s then 1 else 0
    decreases |s|
  {
    if |s| > 0 {
      var init, last := s[..|s| - 1], s[|s| - 1];
      assert s == init + [last];
      assert NoDuplicates(init) by {
        forall i, j | 0 <= i < j < |init| ensures init[i] != init[j] {
          assert init[i] == s[i] && init[j] == s[j];
        }
      }
      NoDuplicatesCount(init, x);
      if last == x {
        assert x !in init by {
          forall i | 0 <= i < |init| ensures init[i] != x {
            assert init[i] == s[i];
          }
        }
      }
    }
  }

  /** A name at two positions occurs at least twice. */
  lemma TwiceCounted(s: seq<Bytes>, i: nat, j: nat)
    requires i < j < |s| && s[i] == s[j]
    ensures multiset(s)[s[i]] >= 2
  {
    assert s == s[..i] + [s[i]] + s[i + 1..j] + [s[j]] + s[j + 1..];
  }

  /** The sorted dated names of a well-named listing without duplicates meet
      the two naming conditions of a run, and none is stored as `README.md`. */
  lemma NotesOfWellNamed(listing: seq<Bytes>)
    requires NoDuplicates(listing) && WellNamed(listing)
    ensures NoAliasing(NotesOf(listing)) && DistinctRealNames(NotesOf(listing))
    ensures ReadmeName !in RealNames(NotesOf(listing), |NotesOf(listing)|)
  {
    var names := NotesOf(listing);
    forall i, j | 0 <= i < j < |names| ensures RealName(names[i]) != RealName(names[j]) {
      if names[i] == names[j] {
        TwiceCounted(names, i, j);
        NoDuplicatesCount(listing, names[i]);
        assert false;
      }
      assert names[i] in listing && names[j] in listing;
    }
    forall i, j | 0 <= i < |names| && 0 <= j < |names| ensures RealName(names[i]) != names[j] {
      assert names[i] in listing;
    }
    forall k | 0 <= k < |names| ensures RealName(names[k]) != ReadmeName {
      assert names[k] in listing;
    }
  }

  /** A run over readable, well-named notes, followed by the write of the
      index, completes; doing both again over the resulting disk writes the
      same index and nothing else. */
  lemma RunPublishSettles(r: Renderer, names: seq<Bytes>, disk: Disk)
    requires AllNoteNames(names) && NoAliasing(names) && DistinctRealNames(names)
    requires Readable(names, disk, |names|)
    requires ReadmeName !in RealNames(names, |names|)
    ensures Publish(RunNotes(r, names, disk)).Completed?
    ensures var st := Publish(RunNotes(r, names, disk)).after;
      Publish(RunNotes(r, names, st.disk)) == Completed(State(st.readme, ChangeHead, [Write(ReadmeName, st.readme)], st.disk))
  {
    ReadmeNotDated();
    assert ReadmeName !in names;
    var first := RunNotes(r, names, disk);
    CompletesIffReadable(r, names, disk);
    RunSettlesBeside(r, names, disk, ReadmeName, first.after.readme);
    var d := first.after.disk[ReadmeName := first.after.readme];
    PublishSettled(first, RunNotes(r, names, d));
  }

  /** Two listings without duplicates that hold the same dated names give
      the same sorted names, whatever their order and other entries. */
  lemma SameDatedNames(listing: seq<Bytes>, listing2: seq<Bytes>)
    requires NoDuplicates(listing) && NoDuplicates(listing2)
    requires forall x | IsNoteName(x) :: x in listing2 <==> x in listing
    ensures NotesOf(listing2) == NotesOf(listing)
  {
    forall x ensures multiset(Matching(listing2))[x] == multiset(Matching(listing))[x] {
      NoDuplicatesCount(listing, x);
      NoDuplicatesCount(listing2, x);
    }
    assert multiset(Matching(listing2)) == multiset(Matching(listing));
    SortNamesCanonical(Matching(listing), Matching(listing2));
    var names := NotesOf(listing);
    assert NotesOf(listing2) == names;
  }

  /** Every dated name of the listing readable makes every sorted name readable. */
  lemma ListingReadable(listing: seq<Bytes>, disk: Disk)
    requires forall x | x in listing && IsNoteName(x) :: x in disk && Excerpt(disk[x]).Some?
    ensures Readable(NotesOf(listing), disk, |NotesOf(listing)|)
  {
    var names := NotesOf(listing);
    forall k | 0 <= k < |names| ensures names[k] in disk && Excerpt(disk[names[k]]).Some? {
      assert names[k] in names;
    }
  }

  /** Idempotence of the builder itself: the first run completes, and a
      second run over the directory it left, listing the same dated names in
      any order, writes nothing but the same index to `README.md`. */
  lemma BuildIdempotent(v: Variant, listing: seq<Bytes>, listing2: seq<Bytes>, disk: Disk)
    requires NoDuplicates(listing) && NoDuplicates(listing2) && WellNamed(listing)
    requires forall x | IsNoteName(x) :: x in listing2 <==> x in listing
    requires forall x | x in listing && IsNoteName(x) :: x in disk && Excerpt(disk[x]).Some?
    ensures Build(v, listing, disk).Completed?
    ensures var st := Build(v, listing, disk).after;
      Build(v, listing2, st.disk) == Completed(State(st.readme, ChangeHead, [Write(ReadmeName, st.readme)], st.disk))
  {
    SameDatedNames(listing, listing2);
    NotesOfWellNamed(listing);
    ListingReadable(listing, disk);
    ReadmeNotDated();
    var names := NotesOf(listing);
    var r := RendererFor(v, names);
    RunPublishSettles(r, names, disk);
    assert Build(v, listing, disk) == Publish(RunNotes(r, names, disk));
    var d := Build(v, listing, disk).after.disk;
    assert Build(v, listing2, d) == Publish(RunNotes(r, names, d));
  }
}
