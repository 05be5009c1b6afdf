# Note index builder, modelled in Dafny

The blog keeps its notes as files named `_YYYY-MM-DD-<name>`. Two near-identical
programs, `golang/make.go` and `clang/upload.go`, maintain them. Each program:

- lists the directory and keeps the names that match `^_\d{4}-\d{2}-\d{2}-`;
- sorts those names byte-wise;
- for every note, in order:
  - appends an entry to the index (a heading with the decorated real name, the date, the first two lines of the note, and a "Read More" link);
  - rebuilds the note's published copy under its real name (`value[12:]`): a title header, the original content unchanged, then a `links` footer;
  - writes that copy, and logs it in the change summary, only when the file on disk differs.

The two programs differ only in:
- the date marker;
- the read-more directory;
- the link labels (`previous`/`next` against `上一节`/`下一节`);
- a back-link `+ [目录](../dirname)`, which only clang writes;
- the equality test: `compareBytes(...) == 0` in golang, `bytes.Equal` in clang.

The model is byte-exact and purely functional:

- `ByteStrings`: bytes, ASCII literals, and `FlatMap` (concatenation over a sequence).
- `Compare`: `compareBytes`, both as a reference function and as the loop written in the source, with its ordering laws.
- `Sorting`: `sort.Strings` as a verified insertion sort. A sorted permutation is unique, so any correct sort gives the same order.
- `NoteNames`: the pattern, the fixed-offset slices `value[1:11]` and `value[12:]`, and `decorateFilename` (a function plus the two loops as written).
- `Render`: the excerpt read with `ReadString('\n')`, index entries, footer links, the rewritten note, the skip test, and change items, for both variants (`Variant = Golang | Clang(dirname)`).
- `Builder`: the main loop as a fold over the sorted names.
  - The directory is a listing plus a map from file name to content.
  - The fold threads the disk, so a note reads the files as earlier notes left them.
  - It returns the index, the change summary and the list of writes.
  - A fatal error (a dated file that cannot be opened, or one with fewer than two newline-terminated lines) becomes an `Aborted` outcome. That outcome keeps the state before the failing note; the writes already made stay on disk.
  - The fold is generic in the two texts the loop derives from a note (`Renderer`). `Build` plugs in the texts of each program, and after a completed loop it writes the index to `README.md` (`Publish`).
  - The methods `FilterNotes`, `ProcessNoteLoop`, `RunLoop` and `BuildSite` follow the source's control flow: its loops, the order of its fatal checks, and its skip test. `ProcessNoteLoop` reads the two lines with the `Excerpt` function and appends the index entry in one statement after the open and the reads, where the source uses five `WriteString` calls between them.
- `Plan`: the whole run stated without the loop.
  - Assume no note's real name is one of the dated names being processed. Then every note reads its dated file as it was before the run. The index is the heading followed by every entry in sorted order, and the run stops at the first unreadable dated file, with a failure naming it.
  - Assume in addition that no two notes share a real name (with the first, the two naming conditions). Then the run equals a plan computed from the initial disk alone: the writes are exactly the notes that are missing or stale on disk.
  - A second run over its result writes nothing.
  - Under the first condition alone, whether a run completes depends only on whether every dated file can be read. Without it a note can make a later dated file readable by overwriting it.
  - Whatever the names, a run over up-to-date notes writes nothing.

Notes on the source's behaviour:
- A note needs two NEWLINE-TERMINATED lines. `ReadString('\n')` fails at end of file when no newline follows, so a note whose second line has no final newline stops the run, even though it holds two lines of text.
- A second run of the whole program writes only the same index again under four conditions on the names. They are the two naming conditions, plus two more: no real name matches the dated-name pattern (a later run would list it as a note) and no real name is `README.md` (the index overwrites it). Two notes with the same real name on different dates overwrite each other on every run, even when they hold the same text: their link footers differ (proved for a listing of two such notes).

## Model

| member | source | states |
|---|---|---|
| NoteNames.PrefixMatchesBytes | golang/make.go:22 | an anchored match of the pattern consumes one byte per pattern position: the name is at least as long as the pattern, and each byte is of its position's class |
| NoteNames.NoteNameLayout | golang/make.go:22 | every name the pattern accepts has at least 12 bytes: `_` at 0, dashes at 5, 8 and 11, digits elsewhere in 1..10, so `value[12:]` and `value[1:11]` are in range |
| NoteNames.Date | golang/make.go:57 | `value[1:11]` is ten bytes shaped `YYYY-MM-DD`: digits, with dashes at offsets 4 and 7 |
| NoteNames.RealName | golang/make.go:50 | `value[12:]` is defined for every matched name and is exactly 12 bytes shorter |
| NoteNames.NoteNameSplit | clang/upload.go:60-67 | the two slices lose nothing: a dated name is `_`, its date, `-`, then its real name |
| NoteNames.Matching | golang/make.go:34-40 | the kept names are exactly the listed names that match the pattern, each as often as it is listed |
| NoteNames.MatchingPermutation | clang/upload.go:44-50 | which names are kept does not depend on the order of the listing |
| NoteNames.LastDotIsLast | golang/make.go:109-115 | the backward search finds a `.` when there is one, and no `.` follows the one it finds |
| NoteNames.Decorate | golang/make.go:107-128 | the title is never longer than the name; each byte is kept in place except that `-` becomes a space; the title holds no `-` |
| NoteNames.DecorateCut | golang/make.go:117-119 | the title stops exactly at the last `.`: it has the name's full length if and only if there is no `.`, and otherwise a `.` follows it with no `.` after that one |
| NoteNames.DecorateLoop | clang/upload.go:118-139 | the two loops of `decorateFilename` as written compute the title |
| Compare.CompareBytes | golang/make.go:130-144 | the comparison returns -1, 0 or 1, and returns 0 if and only if the byte strings are equal |
| Compare.CompareBytesLoop | golang/make.go:131-143 | the loop as written returns 0 exactly on equal inputs, 1 exactly when `a` is larger at the first differing byte or extends `b`, and -1 exactly in the mirrored case |
| Compare.CompareOneIffGreater | golang/make.go:131-142 | the result is 1 if and only if `a` is larger at the first differing byte or is a proper extension of `b` |
| Compare.CompareAntisymmetric | golang/make.go:130-144 | swapping the arguments negates the result |
| Compare.CompareTotal | golang/make.go:130-144 | for any two byte strings, one is not after the other |
| Compare.CompareTransitive | golang/make.go:130-144 | "not after" is transitive |
| Sorting.SortNames | golang/make.go:42 | the sorted names are in ascending byte order and are a permutation of the input |
| Sorting.SortedPairwise | golang/make.go:42 | in a sorted sequence, every name is not after every later one |
| Sorting.SortedUnique | golang/make.go:42 | two sorted permutations of the same names are equal, so every correct sort yields the order `sort.Strings` yields |
| Sorting.SortNamesCanonical | clang/upload.go:52 | the sorted names depend only on which names there are |
| Render.ReadLineSplit | golang/make.go:59-61 | reading a line fails exactly when there is no newline; otherwise the line holds no newline, and the line, the newline and the rest make up the input |
| Render.ExcerptLayout | clang/upload.go:68-74 | the excerpt is the first two lines of the note without their newlines, and these open the note |
| Render.ExcerptNone | golang/make.go:58-64 | there is no excerpt, and the program stops, exactly when the note holds fewer than two newlines |
| Render.IndexEntryLayout | clang/upload.go:61-75 | an index entry is, in order: the `####` heading with the title, the date marker, the two excerpt lines run together, and the read-more link |
| Render.ExtractEntry | golang/make.go:61-65 | the two excerpt lines, run together, can be read back from an index entry by stripping the heading, the date marker and the read-more link |
| Render.IndexEntryIffSameText | golang/make.go:61-65 | two excerpts give the same index entry if and only if their lines run together to the same text; the entry does not record where the first line ended |
| Render.FooterLinksByPosition | clang/upload.go:84-93 | the footer links are as follows. The back-link is present exactly in clang, comes first, and appears once. A previous-link to the note before appears exactly when the note is not first. A next-link to the note after appears exactly when it is not last. The links come in that order, each at most once |
| Render.FooterLinksSingleNote | clang/upload.go:85-93 | with a single note the footer holds the back-link alone in clang, and no link in golang |
| Render.ClangFooterStartsWithBackLink | clang/upload.go:84-85 | in clang every note's footer starts with `links` and the back-link line, whatever the note's position |
| Render.RewriteNoteLayout | golang/make.go:70-74 | the rewritten note is the header, then the original body byte for byte, then the footer |
| Render.ExtractRewrite | clang/upload.go:80-84 | the original body can be read back from between the header and the footer, whatever it holds |
| Render.RewriteInjective | golang/make.go:70-72 | different bodies give different rewritten notes |
| Render.UpToDate | clang/upload.go:95-96 | the write is skipped exactly when the existing file was read and equals the new content; golang's `compareBytes(...) == 0` test decides the same |
| Builder.ProcessNoteStops | golang/make.go:53-64 | a loop body stops exactly when the dated file is missing or has fewer than two lines; it names that file and the failure kind, and keeps the state |
| Builder.ProcessNoteEffect | golang/make.go:84-92 | a completed loop body does three things: it appends the entry to the index; it leaves the note under its real name; it logs `update <name>;` and records a write exactly when the file was missing or different |
| Builder.StepStops | clang/upload.go:63-74 | in the run, note `n` stops it exactly when its dated file, as the disk is at that point, is missing or too short |
| Builder.StepEffect | clang/upload.go:95-103 | what note `n - 1` does to the state of a run that got through it, without the branch |
| Builder.RunPrefixGrows | golang/make.go:45-47 | the index always starts with `Index\n-----\n\n` and the change summary with `update README.md;`; each note adds at most one write |
| Builder.RunPrefixFootprint | golang/make.go:84-92 | a run writes only the real names of the notes it has processed; every other file keeps its presence and content |
| Builder.AbortedStays | golang/make.go:146-151 | once a note has failed, the whole run ends with that failure |
| Builder.NotesOf | golang/make.go:34-42 | the processed names are sorted, all match the pattern, and are the matching names of the listing |
| Builder.AppendFooter | golang/make.go:74-82 | appending the link lines one `if` at a time yields the rendered footer links |
| Builder.RenderNoteLoop | golang/make.go:70-82 | the appends of the loop build exactly the rewritten note |
| Builder.UpToDateLoop | golang/make.go:84-85 | the skip test as written (read the file, compare it, or `bytes.Equal` in clang) computes the skip decision |
| Builder.ProcessNoteLoop | clang/upload.go:59-104 | the loop body as written, with both variants' texts, is the modelled loop body |
| Builder.RunLoop | golang/make.go:49-93 | the loop over the sorted names, stopping at the first fatal error, is the fold |
| Builder.Publish | golang/make.go:95-96 | after a completed loop `README.md` holds the index, that write is logged after the note writes, and no other file changes; a failed run stops before it |
| Builder.FilterNotes | golang/make.go:34-40 | the filter loop as written keeps exactly the names `NoteNames.Matching` keeps, in listing order |
| Builder.BuildSite | golang/make.go:31-96 | the filter loop, the sort, the note loop and the final `README.md` write, as written, give the modelled run `Build` |
| Plan.PlannedWritesStale | clang/upload.go:95-102 | the planned writes are exactly the notes whose real name is missing or stale on disk, each with its new content |
| Plan.PlannedStep | golang/make.go:49-92 | one more note extends the plan as one loop iteration extends the state: its entry is appended, and a write and a change item are added exactly when the note is stale on the initial disk |
| Plan.RunFollowsPlan | golang/make.go:45-93 | assuming no real name is a dated name and real names are distinct, a run over readable notes gives the following. The index is the heading followed by every entry in sorted order. The change summary is `update README.md;` followed by one item per write. The writes are the stale notes in order. The final disk holds every note under its real name |
| Plan.IndexFollowsEntries | golang/make.go:45-65 | when no real name is a dated name, even if real names coincide, a run that gets through the first `n` notes found each of their dated files readable. Its index is the heading followed by their entries, in sorted order, each read from the dated file as it was before the run |
| Plan.RunFailsAtFirstUnreadable | golang/make.go:53-64 | when no real name is a dated name, even if real names coincide, the first dated file that is missing or holds fewer than two lines stops the run. The failure names that file and says which, and the index so far holds the entries of the notes before it |
| Plan.RunStopsAtFirstUnreadable | golang/make.go:53-64 | under both naming conditions, the first unreadable dated file stops the run. The failure names that file, and the state is the plan for the notes before it |
| Plan.CompletesPrefixIffReadable | clang/upload.go:59-75 | when no real name is a processed dated name, the first `n` notes complete exactly when their dated files can be opened and hold two lines; real names may coincide |
| Plan.CompletesIffReadable | clang/upload.go:63-74 | when no real name is a processed dated name, a run completes if and only if every dated file can be opened and holds two lines |
| Plan.UpToDatePrefix | golang/make.go:84-88 | when each of the first `n` notes is already stored under its real name as it would be rewritten, those notes complete, write nothing, and the index holds their entries |
| Plan.RunUpToDate | golang/make.go:84-88 | whatever the names, when every note is already stored under its real name as it would be rewritten, the run writes nothing, logs nothing beyond `update README.md;` and leaves the disk as it was |
| Plan.RunIdempotent | clang/upload.go:95-103 | for the loop alone: a second run over the disk a completed run left writes nothing and produces the same index |
| Plan.NotesOfWellNamed | golang/make.go:31-42 | a directory listing names each entry once. So when no two listed dated names share a real name, and no real name is dated or `README.md`, the sorted dated names meet both naming conditions and none is stored as `README.md` |
| Plan.RunSettles | golang/make.go:49-93 | for the loop alone, under the two naming conditions: a run over readable notes completes, and a second run over the disk it left writes nothing and produces the same index |
| Plan.RunSettlesBeside | golang/make.go:49-93 | the same when one more file is added after the loop, such as the index, under a name that is neither a dated name nor a real name |
| Plan.ReadmeNotDated | golang/make.go:22 | `README.md` does not match the dated-name pattern, so the index is never read as a note |
| Plan.PublishSettled | golang/make.go:95-96 | writing the same index to `README.md` again, after a loop that wrote nothing, changes no file |
| Plan.RunPublishSettles | golang/make.go:49-96 | a loop over readable notes under the two naming conditions, none stored as `README.md`, followed by the index write, completes. Both steps again over the result write only the same index |
| Plan.SameDatedNames | golang/make.go:31-42 | two listings without duplicates that hold the same dated names yield the same sorted names, whatever their order and other entries |
| Plan.BuildIdempotent | golang/make.go:31-96 | the whole program. The first listing must have no duplicates, meet the naming conditions and have every dated file readable; the first run then completes. A second run over a listing with the same dated names, in any order and with any other files, writes only the same index to `README.md` and changes no file |
| Plan.NeighbourLinksDiffer | golang/make.go:75-82 | a `previous` link and a `next` link to the same note never render alike, in either variant |
| Plan.NoteOfTwo | golang/make.go:71-82 | of two notes, the first ends on a `next` link to the second and the second on a `previous` link to the first |
| Plan.FirstAndSecondDiffer | golang/make.go:71-82 | two notes with one real name and the same content are rewritten to different texts |
| Plan.TwoNotesFirstRun | golang/make.go:49-93 | a run over two notes sharing a real name reads both dated files unchanged. The index holds both entries, and the real name is left holding the second note |
| Plan.TwoNotesSecondRun | golang/make.go:84-92 | when the real name holds the second note and the first note's text differs, a run writes the first note and then the second. It logs both, and the disk ends as it began |
| Plan.TwoNotesComplete | golang/make.go:53-64 | a run over two readable notes sharing a real name completes, since writing the real name touches neither dated file |
| Plan.TwoNotesOneName | golang/make.go:84-92 | so a second run after a run over two notes sharing a real name writes both notes again, whenever their texts differ |
| Plan.SharedRealNameNeverSettles | clang/upload.go:95-103 | a run over two readable dated copies of one text under one real name completes, and a second run over its result writes both notes again |

## Left out

- Directory listing, opening, reading, seeking and writing (`Readdir`, `os.Open`, `bufio`, `ioutil.ReadAll`, `ReadFile`, `WriteFile`) are I/O. The directory is a listing plus a map from name to content; the writes are an output list.
- A failing `WriteFile` (and its `checkErr`) is not modelled: writes always succeed. Modelling it would need an I/O failure parameter per file. Some names fail on every run: a note named `_YYYY-MM-DD-`, `_YYYY-MM-DD-.` or `_YYYY-MM-DD-..` has the empty real name, `.` or `..`, which `WriteFile` cannot create. The program stops there on every run, while the model writes the file and completes. So `Plan.BuildIdempotent` and the other lemmas that conclude a run completes describe the program only when no note has such a name.
- A dated name that lists but holds no regular file (a directory, say) is modelled as a missing file. The program stops on it either way; the model reports the failure as "cannot open", while the program fails at the first read.
- The lines that the program appends to its in-memory index before the failing open or read are not kept: the heading line, and for a note with fewer than two lines also the date line and possibly the first line. The index of a failed run is never written, so the model's `Aborted` state stops before that note.
- The git command script and the `cmdutils.BashExecute` shell-out that runs it are an external process. Console printing is an output effect.
- The clang `init` (`os.Stat`, `filepath.Dir(".")`) is taken as the `dirname` parameter. In the source it always evaluates to `.`.
- The internals of `regexp` and `sort.Strings` are not modelled. The pattern is an explicit byte-class sequence; the sort is a verified insertion sort, and `Sorting.SortedUnique` shows its result equals any correct sort's.
- The deferred `Close` calls have no effect on contents. Because `defer file.Close()` sits inside the loop, every dated file stays open until `main` returns. A directory with more notes than the process may hold open descriptors therefore stops at `os.Open`; the model has no descriptor limit and cannot express this failure.
- Plan.RunFollowsPlan: the writes, the change summary and the disk follow the plan only when, in addition, no two notes share a real name. Otherwise a later note decides whether to write against a file an earlier note of the run has just written, not against the initial disk (`Plan.TwoNotesFirstRun`). The index half needs only the first condition and is stated alone as `Plan.IndexFollowsEntries`. Both halves need the first condition: a note stored under a dated name changes what later notes read.
- Plan.RunStopsAtFirstUnreadable: its clause that the state before the failure is the plan needs distinct real names, for the reason given for `Plan.RunFollowsPlan`. The stop, the failure it names and the index so far need only the first condition and are stated alone as `Plan.RunFailsAtFirstUnreadable`.
- Plan.RunIdempotent: needs the same two conditions. Notes with equal real names overwrite each other on every run, so a second run writes again.
- Plan.RunSettles: needs the same two conditions as `Plan.RunIdempotent`, for the same reason.
- Plan.BuildIdempotent: needs the conditions of `Plan.WellNamed` on the first listing, which must also have no duplicates. No two dated names may share a real name, and no real name may match the pattern or be `README.md`. A real name that matches the pattern becomes a new note on the next run, and a note stored as `README.md` is overwritten by the index on every run, so the program never settles in either case. The second listing must hold the same dated names, also without duplicates. The listing of the directory the first run left does: its new files are real names and `README.md`, none of them dated. `Plan.SharedRealNameNeverSettles` shows that the condition on shared real names cannot be dropped.
- Plan.RunPublishSettles: needs the two naming conditions and no note stored as `README.md`, for the reasons given for `Plan.BuildIdempotent`.
- Plan.RunSettlesBeside: needs the same two conditions as `Plan.RunIdempotent`.
