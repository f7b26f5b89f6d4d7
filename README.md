# Android Auto Note Exporter, modelled in Dafny

The exporter drives the "Notepad" app (com.onto.notepad) on an Android device through
AndroidViewClient. It walks the app's notes list, one screenful at a time, and opens each
note. For each note it reads the title and text from the note's page and the date from the
list row, collects the notes in order, and backs up the list collected so far after every note.

This project models:

- **util.py.** `traverseListViewChildren` is the reconciliation loop that visits every child
  of a scrolling list exactly once. `findViewWithPredicate` and `findViewWithPredicateOrRaise`
  are the finders.
  - `Util.Traversal` specifies the traversal: `Reconcile` is one pass's filtering,
    `ProcessChildren` the inner loop and `Run` the outer loop.
  - `Util.TraverseListViewChildren` is the imperative loop, proved equal to that specification.
  - The device is the sequence of windows the loop reads. Window `k` is the list view's
    children on pass `k`; a pass past the last window reads an empty window.
  - The hash and the visibility check are function parameters. `transform` calls are
    recorded in order as the trace's `calls`.
- **main.py.** The element finders, the row predicate and parser, the row hash, the assembly
  of a note, `extractNoteFn` (the `NoteCollector` class, with the list `notes` and the
  backups it has written) and `extractAllNoteData`.
  - A screen is the list of views of a view-hierarchy snapshot, in iteration order.
  - `openNote` gives the screen shown after touching a row.
  - A row is fully visible exactly when it has two children (`IsNoteListItemFullyVisible`).
- **data.py.** The three records, `NoteData`'s equality, hash, `str`/`repr` and `toJson`.
  Dates are an abstract type. Python's `hash`, `str` of a date, `isoformat` and the
  `dateutil` parser are function parameters.

Modules:
- `Wrappers`: Option and Result.
- `Views`: view nodes and `str.endswith`.
- `Util` and `TraversalProperties`: util.py.
- `TraversalScenarios`: concrete traversals.
- `Data`: data.py.
- `Notes`: main.py.

## Model

| member | source | states |
|---|---|---|
| Util.FirstMatch | util.py:100-107 | The result is None exactly when no view satisfies the predicate. Otherwise it is a view that satisfies it and no earlier view does. |
| Util.FindViewWithPredicate | util.py:100-107 | The loop with early return yields the first view satisfying the predicate, in iteration order, or None. |
| Util.FindViewWithPredicateOrRaise | util.py:110-117 | Fails exactly when no view matches, so it never returns "nothing". On success it returns the first match. The error is the caller's message, or "Cannot find view with predicate." when none is given. |
| Util.FullyVisible | util.py:60-61 | The list comprehension that keeps the fully visible children. Its contract bounds the result by the window's length. Its meaning is stated by `FullyVisibleSpec`. |
| Util.FullyVisibleAppend | util.py:60-61 | Filtering two pieces of a window and joining the results equals filtering the joined window. So the filter keeps window order and every repeat. |
| Util.FullyVisibleSplit | util.py:60-61 | Filtering any split of a window piece by piece, then joining, gives the whole window's result. |
| Util.FullyVisibleSingle | util.py:60-61 | A single child is kept exactly when it is fully visible. |
| Util.FullyVisibleSpec | util.py:60-61 | The filtered children are all fully visible and come from the window. Every fully visible child of the window is kept. The filter agrees with filtering any split of the window piece by piece, and keeps a single child exactly when it is fully visible. This pins down order and repeats. |
| Util.FullyVisibleMembers | util.py:60-61 | Every filtered child is fully visible and is a child of the window. |
| Util.FullyVisibleComplete | util.py:60-61 | Every fully visible child of the window survives the filter. |
| Util.IndexOf | util.py:71 | The index is that of the first occurrence of the hash. |
| Util.Reconcile | util.py:63-72 | One pass's removal of children already done. Its contract bounds the result by the number of fully visible children. Its meaning is stated by `ReconcileSpec`. |
| Util.ReconcileSpec | util.py:63-72 | Without a last child, every fully visible child is kept. The pass skips ("scrolling too fast") exactly when a last child exists and no fully visible child has its hash. Otherwise only the children strictly after the first child with that hash are kept. |
| Util.ProcessChildren | util.py:80-88 | The inner `for` loop as a function. It has no contract of its own. Its meaning is stated by the three `ProcessChildren*` lemmas. |
| Util.ProcessChildrenCompletesIffFresh | util.py:80-88 | The inner loop completes exactly when no child's hash was visited before and the children's hashes are pairwise distinct. |
| Util.ProcessChildrenCompleted | util.py:80-88 | After a completed pass, every child was transformed in window order. The last child is the last one transformed, and all their hashes are added to the visited set. |
| Util.ProcessChildrenDuplicate | util.py:82-86 | On a duplicate, the children before it were transformed in order and the duplicate itself was not. Its hash was already visited, or it was visited earlier in the same pass. |
| Util.Run | util.py:48-97 | One pass of the `while not reached_end` loop, then the passes after it. It has no contract of its own. Its properties are the `TraversalProperties` lemmas. |
| Util.RunNextPass | util.py:79-97 | A pass that processes all of its new children without a duplicate continues as the next pass, with that pass's progress. |
| Util.Traversal | util.py:44-97 | The traversal from the start of the list, with no last child and nothing visited. It has no contract of its own. Its properties are the `TraversalProperties` lemmas. |
| Util.TraverseListViewChildren | util.py:9-97 | The imperative while/for loop gives exactly the outcome and the `transform` calls of the traversal specification. |
| TraversalProperties.RunExtendsCalls | util.py:80-88 | Later passes only add `transform` calls; earlier calls are never undone. |
| TraversalProperties.ReconciledChildrenShown | util.py:60-72 | Every child kept for processing is fully visible and belongs to the pass's window. |
| TraversalProperties.PassOutcome | util.py:63-77 | A pass raises "scrolling too fast", with no further `transform` call, exactly when reconciliation skips. It ends without error, with no `transform` call, exactly when no children remain. |
| TraversalProperties.TraversalCallsShown | util.py:57-61 | `transform` is applied only to children that were fully visible in a window read by the traversal. |
| TraversalProperties.TraversalHashesDistinct | util.py:82-88 | No two transformed children have the same hash. |
| TraversalProperties.ExactlyOnceInOrder | util.py:21-25 | Take distinct, consistently hashed items read through windows that slide forward with overlap. Each item is transformed exactly once, in list order, and the traversal ends without error. |
| TraversalProperties.TraversalHashOnVisibleOnly | util.py:61-66 | The traversal depends on the hasher only through its values on fully visible children. |
| TraversalScenarios.ThreeEntriesSlidingWindow | util.py:48-97 | Three entries through a window of two with overlap: each is transformed once, in order, and the traversal finishes. |
| TraversalScenarios.OvershootingFling | util.py:64-69 | A fling that loses the last child: the first window is fully transformed, then "scrolling too fast" is raised before the new child is transformed. |
| TraversalScenarios.NonUniqueHash | util.py:82-84 | Two different entries share a hash under a parity hasher. The later one raises the duplicate-hash error and is not transformed. |
| TraversalScenarios.CutOffRowWaitsForNextPass | util.py:60-61 | A row cut off at the screen edge is skipped on that pass and transformed once on the next. |
| Data.DefaultNoteListItemData | data.py:6-9 | With no arguments the title is empty; the date is the clock reading. |
| Data.DefaultNotePageData | data.py:12-15 | With no arguments the title and text are empty. |
| Data.DefaultNoteData | data.py:18-22 | With no arguments the title and text are empty; the date is the clock reading. |
| Data.Equals | data.py:24-25 | Two notes are equal exactly when title, text and date are all equal. |
| Data.Hash | data.py:27-28 | A note's hash is the hash of its (title, text, date) triple. It has no contract of its own. `EqualNotesHashEqually` states its property. |
| Data.EqualNotesHashEqually | data.py:27-28 | Equal notes have equal hashes. |
| Data.Repr | data.py:33-34 | `repr` is `str`. |
| Data.Str | data.py:30-31 | "(", the date's string, ") ", then the title. It has no contract of its own. `StrLayout` states what can be read back from it. |
| Data.StrLayout | data.py:30-31 | `str` is "(", the date's string, ") ", then the title. |
| Data.ToJson | data.py:36-41 | The JSON object has exactly the keys title, text and date. Title and text are copied unchanged; date is the ISO string. |
| Data.JsonRoundTrip | data.py:36-41 | When the ISO reader inverts `isoformat`, a note's JSON object reads back as the same note. |
| Data.ToJsonInjective | data.py:36-41 | When `isoformat` is injective, different notes give different JSON objects. |
| Notes.IsNotesListView | main.py:44-45 | A view is the notes list exactly when its id ends in "notesListView". It is a predicate with no contract. |
| Notes.GetNotesListView | main.py:44-51 | The first view whose id ends in "notesListView"; fails with its own message exactly when there is none. |
| Notes.IsNoteTitleFieldOnNotePage | main.py:55-56 | A view is the title field exactly when its id ends in "titleEdit". It is a predicate with no contract. |
| Notes.GetNoteTitleFieldFromNotePage | main.py:55-60 | The first view whose id ends in "titleEdit"; fails with "Cannot find notes title field." exactly when there is none. |
| Notes.IsNoteContentFieldOnNotePage | main.py:63-64 | A view is the content field exactly when its id ends in "contentEdit". It is a predicate with no contract. |
| Notes.GetNoteContentFieldFromNotePage | main.py:63-68 | The first view whose id ends in "contentEdit"; fails with "Cannot find notes content field." exactly when there is none. |
| Notes.IsNoteListItemFullyVisible | main.py:71-72 | A row is fully visible exactly when it has two children. It is a predicate with no contract. |
| Notes.ParseNoteListItem | main.py:75-82 | Requires a fully visible row. The title is child 0's text; the date is parsed from child 1's text. |
| Notes.HashNoteListItem | main.py:95-97 | A row's hash is the hash of its parsed (title, date) pair. It has no contract of its own. `RowHashOnlyOnTitleAndDate` states its property. |
| Notes.RowHasher | main.py:95-97 | `hashNoteListItem` made total, with 0 on rows that are not fully visible. It has no contract of its own. `RowHasherChoiceIrrelevant` shows the value chosen there never matters. |
| Notes.RowHashOnlyOnTitleAndDate | main.py:95-97 | Rows that parse to the same title and date hash equally. |
| Notes.RowHasherChoiceIrrelevant | main.py:95-97 | Any hasher agreeing with `hashNoteListItem` on fully visible rows gives the same traversal. So the model's total row hasher stands for the partial one. |
| Notes.NotePageOf | main.py:85-92 | What a note's page reads as: the title field's text and the content field's text, or the first lookup error. It has no contract of its own. `NotePageOfSpec` states its meaning. |
| Notes.NotePageOfSpec | main.py:85-92 | A page reads successfully exactly when it has both a title and a content field. The title's error wins when both are missing. The texts read are those of the first title field and the first content field. |
| Notes.ParseNotePage | main.py:85-92 | Looks up the title field and then the content field, and yields the page's reading. |
| Notes.NoteFor | main.py:100-123 | The note a row stands for. It has no contract of its own. `NoteForSpec` states its meaning. |
| Notes.NoteForSpec | main.py:100-123 | A note is built exactly when its page reads. Its title and text come from the page and its date from the list row. Otherwise it fails with the page's error. |
| Notes.GetNoteDataForListItem | main.py:100-123 | Reads the row, then the opened page, and yields the note the row stands for. |
| Notes.NoteCollector.constructor | main.py:128 | Starts with no notes and no backups. |
| Notes.NoteCollector.ExtractNote | main.py:130-136 | On success, exactly one note is appended at the end, and the full list so far is saved as the next backup. On failure nothing changes, and the error is the note's. |
| Notes.CollectSpec | main.py:130-136 | Collecting results in order keeps exactly the notes before the first failure, in order. It stops at that failure with its error, and ends without error exactly when every result is a note. |
| Notes.ExtractEach | main.py:130-136 | The repeated `extractNoteFn` calls on the given rows, in order, stopping at the first failure. It has no contract of its own. `ExtractEachSpec` states its meaning. |
| Notes.ExtractEachSpec | main.py:130-136 | The notes collected are those of the first rows, in row order. Extraction stops exactly at the first row whose note cannot be read, with that row's error. |
| Notes.ExtractInOrder | main.py:130-140 | The `extractNoteFn` calls on a fresh list collect what ExtractEach specifies. Every backup is the list of notes collected up to then. |
| Notes.TransformedRowsFullyVisible | main.py:71-72 | Every row the traversal hands to `extractNoteFn` has both of its children rendered. |
| Notes.ExtractAll | main.py:126-142 | The whole export: the traversal, then the in-order extraction, then the traversal's exception if every extraction succeeded. It has no contract of its own. `ExtractAllInTraversalOrder` states its meaning. |
| Notes.ExtractAllInTraversalOrder | main.py:126-142 | The exported notes belong to the transformed rows, in the order they were transformed. The export succeeds exactly when the traversal finishes and every note reads. If a transformed row's note cannot be read, the export fails with that note's error. Only when every transformed row reads does the traversal's "scrolling too fast" or duplicate-hash message come out. No two exported notes come from rows with the same hash. |
| Notes.ExtractAllNoteData | main.py:126-142 | Traversal followed by in-order extraction yields the whole export's result, and its backups are the successive prefixes of the collected notes. |

## Left out

- Device interaction is not modelled: `vc.dump()`, the flings, `touch()`, the back key and the copies of the list view's scroller. The traversal reads the given windows, and a note page is `openNote` of its row.
- The scroller tuning constants (duration 80/800, dead zone 0/0.15) are timing settings with no logical effect.
- The list-view lookup inside the traversal can fail (util.py:34, 50). The windows are already the list view's children, so that failure is not modelled; `Notes.GetNotesListView` models the lookup itself.
- The `isinstance` assertion in the inner loop (util.py:81) is implied by the types.
- `findViewWithPredicate` iterates a dictionary keyed by view id. The model takes the screen as a sequence of views in that iteration order, so two views sharing an id are not merged.
- `dateutil.parser.parse`, `datetime.isoformat`, `str` of a date and Python's builtin `hash` are passed-in functions. A date string that `dateutil` rejects is not modelled: `parseDate` is total.
- Notes.RowHasher: `hashNoteListItem` fails on a row that is not fully visible. The model's hasher returns 0 there instead; the traversal never hashes such a row, and `RowHasherChoiceIrrelevant` proves the value chosen there changes nothing.
- Notes.ExtractAllNoteData: the source calls `extractNoteFn` from inside the traversal. The model runs the traversal first and then extracts each transformed row in order. This is equivalent because of three facts:
  - The traversal's control depends only on the windows it reads, never on what `extractNoteFn` returns. The device effects of touching a row and pressing BACK (main.py:105, 112) are part of those windows.
  - A failing extraction ends the export at once.
  - Every traversal error comes after all of that traversal's `transform` calls.
- `openNote(row)` assumes that touching a row handle read before the previous extractions still opens that row's note.
- Writing files is not modelled: `saveNoteData` (the backups are kept as the lists that would be saved, each note being serialised by `Data.ToJson`). Also left out are the `print` calls, `main()` and the `sys.path` setup.
- The `dt.now()` defaults are evaluated once, when the class is defined; the model passes the clock reading in as `now`.
- `Data.FromJson` is not in the source: it reads a JSON object back and is used only to state the round trip of `toJson`.
- An overshooting fling fails after the whole first window has been transformed, not just its first row: the model follows the code (`TraversalScenarios.OvershootingFling`).
