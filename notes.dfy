/** The note exporter of main.py. A screen is the list of views in a view-hierarchy
    snapshot, in the order the finders iterate over them. The notes list is read through
    the sequence of windows that the traversal sees. Opening a row shows the screen given by
    `openNote`. The date parser (`dateutil`) and Python's hash of a (title, date) pair are
    passed in as functions. */
module Notes {
  import opened Wrappers
  import opened Views
  import opened Util
  import opened Data
  import opened TraversalProperties

  // ---------------------------------------------------------------------------
  // Element finders
  // ---------------------------------------------------------------------------

  predicate IsNotesListView(v: View)
  {
    EndsWith(v.id, "notesListView")
  }

  predicate IsNoteTitleFieldOnNotePage(v: View)
  {
    EndsWith(v.id, "titleEdit")
  }

  predicate IsNoteContentFieldOnNotePage(v: View)
  {
    EndsWith(v.id, "contentEdit")
  }

  const NotesListViewMessage :=
    "Cannot find notes list view. Are you on home screen of notes app? (com.onto.notepad)"
  const TitleFieldMessage := "Cannot find notes title field."
  const ContentFieldMessage := "Cannot find notes content field."

  /** The first view on the screen that is the notes list, or the finder's own error. */
  method GetNotesListView(screen: seq<View>) returns (r: Result<View, string>)
    ensures r.Failure? <==> forall i :: 0 <= i < |screen| ==> !IsNotesListView(screen[i])
    ensures r.Success? ==> Some(r.value) == FirstMatch(screen, IsNotesListView)
    ensures r.Failure? ==> r.error == NotesListViewMessage
  {
    r := FindViewWithPredicateOrRaise(screen, IsNotesListView, Some(NotesListViewMessage));
  }

  /** The first view on the screen that is a note's title field, or the finder's own error. */
  method GetNoteTitleFieldFromNotePage(screen: seq<View>) returns (r: Result<View, string>)
    ensures r.Failure? <==> forall i :: 0 <= i < |screen| ==> !IsNoteTitleFieldOnNotePage(screen[i])
    ensures r.Success? ==> Some(r.value) == FirstMatch(screen, IsNoteTitleFieldOnNotePage)
    ensures r.Failure? ==> r.error == TitleFieldMessage
  {
    r := FindViewWithPredicateOrRaise(screen, IsNoteTitleFieldOnNotePage, Some(TitleFieldMessage));
  }

  /** The first view on the screen that is a note's content field, or the finder's own error. */
  method GetNoteContentFieldFromNotePage(screen: seq<View>) returns (r: Result<View, string>)
    ensures r.Failure? <==> forall i :: 0 <= i < |screen| ==> !IsNoteContentFieldOnNotePage(screen[i])
    ensures r.Success? ==> Some(r.value) == FirstMatch(screen, IsNoteContentFieldOnNotePage)
    ensures r.Failure? ==> r.error == ContentFieldMessage
  {
    r := FindViewWithPredicateOrRaise(screen, IsNoteContentFieldOnNotePage, Some(ContentFieldMessage));
  }

  // ---------------------------------------------------------------------------
  // List rows
  // ---------------------------------------------------------------------------

  /** A row is fully on screen when both its title and its date are rendered. */
  predicate IsNoteListItemFullyVisible(row: View)
  {
    |row.children| == 2
  }

  /** The title is the first child's text; the date is parsed from the second child's text. */
  function ParseNoteListItem(row: View, parseDate: string -> Date): (r: NoteListItemData)
    requires IsNoteListItemFullyVisible(row)
    ensures r.title == row.children[0].text && r.date == parseDate(row.children[1].text)
  {
    NoteListItemData(row.children[0].text, parseDate(row.children[1].text))
  }

  /** The hash of a row is the hash of its parsed (title, date) pair. */
  function HashNoteListItem(row: View, parseDate: string -> Date, hashPair: ((string, Date)) -> int): int
    requires IsNoteListItemFullyVisible(row)
  {
    var item := ParseNoteListItem(row, parseDate);
    hashPair((item.title, item.date))
  }

  /** Rows that parse to the same title and date hash equally, whatever else they show. */
  lemma RowHashOnlyOnTitleAndDate(u: View, v: View, parseDate: string -> Date, hashPair: ((string, Date)) -> int)
    requires IsNoteListItemFullyVisible(u) && IsNoteListItemFullyVisible(v)
    requires ParseNoteListItem(u, parseDate) == ParseNoteListItem(v, parseDate)
    ensures HashNoteListItem(u, parseDate, hashPair) == HashNoteListItem(v, parseDate, hashPair)
  {
  }

  /** The row hasher handed to the traversal. The traversal hashes only fully visible rows,
      so the value 0 on the other rows is never looked at (RowHasherChoiceIrrelevant). */
  function RowHasher(parseDate: string -> Date, hashPair: ((string, Date)) -> int): View -> int
  {
    row => if IsNoteListItemFullyVisible(row) then HashNoteListItem(row, parseDate, hashPair) else 0
  }

  /** Any hasher that agrees with the row hash on fully visible rows gives the same traversal. */
  lemma RowHasherChoiceIrrelevant(windows: seq<seq<View>>, parseDate: string -> Date,
                                  hashPair: ((string, Date)) -> int, h: View -> int)
    requires forall row :: IsNoteListItemFullyVisible(row) ==> h(row) == HashNoteListItem(row, parseDate, hashPair)
    ensures Traversal(windows, h, IsNoteListItemFullyVisible)
         == Traversal(windows, RowHasher(parseDate, hashPair), IsNoteListItemFullyVisible)
  {
    TraversalHashOnVisibleOnly(windows, h, RowHasher(parseDate, hashPair), IsNoteListItemFullyVisible);
  }

  // ---------------------------------------------------------------------------
  // Note pages and note records
  // ---------------------------------------------------------------------------

  /** What a note's page shows: the title field's text and the content field's text. The
      title field is looked up first, so its error wins when both are missing. */
  function NotePageOf(screen: seq<View>): Result<NotePageData, string>
  {
    match FirstMatch(screen, IsNoteTitleFieldOnNotePage)
    case None => Failure(TitleFieldMessage)
    case Some(titleField) =>
      match FirstMatch(screen, IsNoteContentFieldOnNotePage)
      case None => Failure(ContentFieldMessage)
      case Some(contentField) => Success(NotePageData(titleField.text, contentField.text))
  }

  /** The page reads successfully exactly when it has both a title and a content field; the
      title field is looked up first, so its error wins when both are missing; the texts
      read are those of the first title field and the first content field. */
  lemma NotePageOfSpec(screen: seq<View>)
    ensures var r := NotePageOf(screen);
      && (r.Success? <==>
            (exists i :: 0 <= i < |screen| && IsNoteTitleFieldOnNotePage(screen[i])) &&
            (exists i :: 0 <= i < |screen| && IsNoteContentFieldOnNotePage(screen[i])))
      && (r.Failure? ==>
            r.error == (if forall i :: 0 <= i < |screen| ==> !IsNoteTitleFieldOnNotePage(screen[i])
                        then TitleFieldMessage else ContentFieldMessage))
      && (r.Success? ==>
            && FirstMatch(screen, IsNoteTitleFieldOnNotePage).Some?
            && r.value.title == FirstMatch(screen, IsNoteTitleFieldOnNotePage).value.text
            && FirstMatch(screen, IsNoteContentFieldOnNotePage).Some?
            && r.value.text == FirstMatch(screen, IsNoteContentFieldOnNotePage).value.text)
  {
  }

  /** Reads the title and then the content field of a note's page. */
  method ParseNotePage(screen: seq<View>) returns (r: Result<NotePageData, string>)
    ensures r == NotePageOf(screen)
  {
    var titleField := GetNoteTitleFieldFromNotePage(screen);
    if titleField.Failure? {
      return Failure(titleField.error);
    }
    var contentField := GetNoteContentFieldFromNotePage(screen);
    if contentField.Failure? {
      return Failure(contentField.error);
    }
    r := Success(NotePageData(titleField.value.text, contentField.value.text));
  }

  /** The note a row stands for: title and text from the note's page, date from the row. */
  function NoteFor(row: View, page: seq<View>, parseDate: string -> Date): Result<NoteData, string>
    requires IsNoteListItemFullyVisible(row)
  {
    var item := ParseNoteListItem(row, parseDate);
    match NotePageOf(page)
    case Failure(e) => Failure(e)
    case Success(shown) => Success(NoteData(shown.title, shown.text, item.date))
  }

  /** A note is built exactly when its page reads: title and text from the page, date from
      the row; otherwise the page's error. */
  lemma NoteForSpec(row: View, page: seq<View>, parseDate: string -> Date)
    requires IsNoteListItemFullyVisible(row)
    ensures var r := NoteFor(row, page, parseDate);
      && (r.Success? <==> NotePageOf(page).Success?)
      && (r.Failure? ==> r.error == NotePageOf(page).error)
      && (r.Success? ==>
            && r.value.title == NotePageOf(page).value.title
            && r.value.text == NotePageOf(page).value.text
            && r.value.date == parseDate(row.children[1].text))
  {
  }

  /** Reads the row, opens the note (its page is `page`), reads the page and assembles the
      note. */
  method GetNoteDataForListItem(row: View, page: seq<View>, parseDate: string -> Date)
    returns (r: Result<NoteData, string>)
    requires IsNoteListItemFullyVisible(row)
    ensures r == NoteFor(row, page, parseDate)
  {
    var item := ParseNoteListItem(row, parseDate);
    var shown := ParseNotePage(page);
    if shown.Failure? {
      return Failure(shown.error);
    }
    r := Success(NoteData(shown.value.title, shown.value.text, item.date));
  }

  // ---------------------------------------------------------------------------
  // Collecting notes
  // ---------------------------------------------------------------------------

  /** Every backup holds the notes collected so far: the i-th backup the first i + 1 notes. */
  ghost predicate BackupsArePrefixes(notes: seq<NoteData>, backups: seq<seq<NoteData>>)
  {
    |backups| == |notes| && forall i :: 0 <= i < |backups| ==> backups[i] == notes[..i + 1]
  }

  /** The list `notes` that `extractNoteFn` appends to, and the lists it has saved as
      backups, in the order they were saved. */
  class NoteCollector {
    var notes: seq<NoteData>
    var backups: seq<seq<NoteData>>

    ghost predicate Valid()
      reads this
    {
      BackupsArePrefixes(notes, backups)
    }

    constructor ()
      ensures notes == [] && backups == []
      ensures Valid()
    {
      notes := [];
      backups := [];
    }

    /** `extractNoteFn`: extract the row's note, append it, and back up the whole list. */
    method ExtractNote(row: View, page: seq<View>, parseDate: string -> Date) returns (err: Option<string>)
      requires Valid()
      requires IsNoteListItemFullyVisible(row)
      modifies this
      ensures Valid()
      ensures err.None? <==> NoteFor(row, page, parseDate).Success?
      ensures err.None? ==>
        && notes == old(notes) + [NoteFor(row, page, parseDate).value]
        && backups == old(backups) + [notes]
      ensures err.Some? ==>
        && err.value == NoteFor(row, page, parseDate).error
        && notes == old(notes) && backups == old(backups)
    {
      var note := GetNoteDataForListItem(row, page, parseDate);
      if note.Failure? {
        return Some(note.error);
      }
      notes := notes + [note.value];
      backups := backups + [notes];
      err := None;
    }
  }

  /** How an export ends: the notes collected, and the error it raised, if any. */
  datatype Extraction = Extraction(notes: seq<NoteData>, error: Option<string>)

  /** Collecting notes in order, stopping at the first failure: the notes read before it,
      and its error. */
  function Collect(results: seq<Result<NoteData, string>>): Extraction
    decreases |results|
  {
    if results == [] then Extraction([], None)
    else
      match results[0]
      case Failure(e) => Extraction([], Some(e))
      case Success(n) =>
        var rest := Collect(results[1..]);
        Extraction([n] + rest.notes, rest.error)
  }

  /** The notes collected are the first results, in order; collection stops exactly at the
      first failure, with its error. */
  lemma {:induction false} CollectSpec(results: seq<Result<NoteData, string>>)
    ensures var x := Collect(results);
      var k := |x.notes|;
      && k <= |results|
      && (forall i :: 0 <= i < k ==> results[i] == Success(x.notes[i]))
      && (x.error.None? <==> k == |results|)
      && (x.error.Some? ==> results[k] == Failure(x.error.value))
    decreases |results|
  {
    if results != [] && results[0].Success? {
      var rest := Collect(results[1..]);
      CollectSpec(results[1..]);
      assert forall i :: 0 < i <= |rest.notes| ==> results[1..][i - 1] == results[i];
    }
  }

  /** Resuming the collection at position `i`, with the notes of the results before it
      `done`: a failure there ends it with the notes so far, a success adds its note. */
  lemma CollectResume(results: seq<Result<NoteData, string>>, i: nat, done: seq<NoteData>)
    requires i < |results|
    requires Collect(results) == Extraction(done + Collect(results[i..]).notes, Collect(results[i..]).error)
    ensures var next := Collect(results[i + 1..]);
      && (results[i].Failure? ==> Collect(results) == Extraction(done, Some(results[i].error)))
      && (results[i].Success? ==>
            Collect(results) == Extraction((done + [results[i].value]) + next.notes, next.error))
  {
    assert results[i..][0] == results[i];
    assert results[i..][1..] == results[i + 1..];
    if results[i].Success? {
      AppendAssociative(done, [results[i].value], Collect(results[i + 1..]).notes);
    } else {
      assert done + [] == done;
    }
  }

  /** The note of each row, read from the page the row opens. */
  function NotesOf(rows: seq<View>, openNote: View -> seq<View>, parseDate: string -> Date)
    : (r: seq<Result<NoteData, string>>)
    requires forall i :: 0 <= i < |rows| ==> IsNoteListItemFullyVisible(rows[i])
    ensures |r| == |rows|
    ensures forall i :: 0 <= i < |rows| ==> r[i] == NoteFor(rows[i], openNote(rows[i]), parseDate)
  {
    seq(|rows|, i requires 0 <= i < |rows| => NoteFor(rows[i], openNote(rows[i]), parseDate))
  }

  /** Extracting the note of each row in order, stopping at the first failure. */
  function ExtractEach(rows: seq<View>, openNote: View -> seq<View>, parseDate: string -> Date): Extraction
    requires forall i :: 0 <= i < |rows| ==> IsNoteListItemFullyVisible(rows[i])
  {
    Collect(NotesOf(rows, openNote, parseDate))
  }

  /** The notes extracted are those of the first rows, in row order; extraction stops
      exactly at the first row whose note cannot be read, with that row's error. */
  lemma ExtractEachSpec(rows: seq<View>, openNote: View -> seq<View>, parseDate: string -> Date)
    requires forall i :: 0 <= i < |rows| ==> IsNoteListItemFullyVisible(rows[i])
    ensures var x := ExtractEach(rows, openNote, parseDate);
      var k := |x.notes|;
      && k <= |rows|
      && (forall i :: 0 <= i < k ==>
            NoteFor(rows[i], openNote(rows[i]), parseDate) == Success(x.notes[i]))
      && (x.error.None? <==> k == |rows|)
      && (x.error.Some? ==>
            NoteFor(rows[k], openNote(rows[k]), parseDate) == Failure(x.error.value))
  {
    CollectSpec(NotesOf(rows, openNote, parseDate));
  }

  /** Every row the traversal transforms is fully visible, so its note can be read. */
  lemma TransformedRowsFullyVisible(windows: seq<seq<View>>, hash: View -> int)
    ensures var calls := Traversal(windows, hash, IsNoteListItemFullyVisible).calls;
      forall i :: 0 <= i < |calls| ==> IsNoteListItemFullyVisible(calls[i])
  {
    TraversalCallsShown(windows, hash, IsNoteListItemFullyVisible);
  }

  lemma AppendAssociative<X>(a: seq<X>, b: seq<X>, c: seq<X>)
    ensures a + (b + c) == (a + b) + c
  {
  }

  /** The whole export: traverse the notes list, extract the note of every row the
      traversal transforms, in order, and fail with the first error raised. */
  function ExtractAll(windows: seq<seq<View>>, openNote: View -> seq<View>, parseDate: string -> Date,
                      hashPair: ((string, Date)) -> int): Extraction
  {
    var trace := Traversal(windows, RowHasher(parseDate, hashPair), IsNoteListItemFullyVisible);
    TransformedRowsFullyVisible(windows, RowHasher(parseDate, hashPair));
    var x := ExtractEach(trace.calls, openNote, parseDate);
    if x.error.None? && trace.outcome != Finished then Extraction(x.notes, Some(trace.outcome.Message()))
    else x
  }

  /** The exported notes are those of the transformed rows, in the order the traversal
      transformed them; the export succeeds exactly when the traversal finishes and every
      note can be read. A row whose note cannot be read ends the export with that note's
      error; only when every transformed row reads does the traversal's own exception come
      out. No two exported notes come from rows with the same hash. */
  lemma ExtractAllInTraversalOrder(windows: seq<seq<View>>, openNote: View -> seq<View>,
                                   parseDate: string -> Date, hashPair: ((string, Date)) -> int)
    ensures var trace := Traversal(windows, RowHasher(parseDate, hashPair), IsNoteListItemFullyVisible);
      var x := ExtractAll(windows, openNote, parseDate, hashPair);
      var calls := trace.calls;
      && |x.notes| <= |calls|
      && (forall i :: 0 <= i < |x.notes| ==>
            IsNoteListItemFullyVisible(calls[i]) &&
            NoteFor(calls[i], openNote(calls[i]), parseDate) == Success(x.notes[i]))
      && (x.error.None? <==> trace.outcome == Finished && |x.notes| == |calls|)
      && (x.error.Some? && |x.notes| < |calls| ==>
            IsNoteListItemFullyVisible(calls[|x.notes|]) &&
            NoteFor(calls[|x.notes|], openNote(calls[|x.notes|]), parseDate) == Failure(x.error.value))
      && (x.error.Some? && |x.notes| == |calls| ==>
            trace.outcome != Finished && x.error.value == trace.outcome.Message())
      && (forall i, j :: 0 <= i < j < |x.notes| ==>
            HashNoteListItem(calls[i], parseDate, hashPair) != HashNoteListItem(calls[j], parseDate, hashPair))
  {
    var hash := RowHasher(parseDate, hashPair);
    var trace := Traversal(windows, hash, IsNoteListItemFullyVisible);
    TransformedRowsFullyVisible(windows, hash);
    TraversalHashesDistinct(windows, hash, IsNoteListItemFullyVisible);
    ExtractEachSpec(trace.calls, openNote, parseDate);
    var x := ExtractAll(windows, openNote, parseDate, hashPair);
    forall i, j | 0 <= i < j < |x.notes|
      ensures HashNoteListItem(trace.calls[i], parseDate, hashPair) != HashNoteListItem(trace.calls[j], parseDate, hashPair)
    {
      assert hash(trace.calls[i]) != hash(trace.calls[j]);
    }
  }

  /** The `extractNoteFn` calls for the given rows, in order, on a fresh collector: stops at
      the first note that cannot be read. Returns the notes collected, the error if any, and
      the backups written. */
  method ExtractInOrder(rows: seq<View>, openNote: View -> seq<View>, parseDate: string -> Date)
    returns (result: Extraction, backups: seq<seq<NoteData>>)
    requires forall i :: 0 <= i < |rows| ==> IsNoteListItemFullyVisible(rows[i])
    ensures result == ExtractEach(rows, openNote, parseDate)
    ensures BackupsArePrefixes(result.notes, backups)
  {
    ghost var results := NotesOf(rows, openNote, parseDate);
    var collector := new NoteCollector();
    assert results[0..] == results;
    for i := 0 to |rows|
      invariant collector.Valid()
      invariant Collect(results) == Extraction(collector.notes + Collect(results[i..]).notes, Collect(results[i..]).error)
    {
      CollectResume(results, i, collector.notes);
      var err := collector.ExtractNote(rows[i], openNote(rows[i]), parseDate);
      if err.Some? {
        return Extraction(collector.notes, err), collector.backups;
      }
    }
    assert results[|rows|..] == [];
    result := Extraction(collector.notes, None);
    backups := collector.backups;
  }

  /** `extractAllNoteData`: traverse the notes list and hand each transformed row, in
      order, to `extractNoteFn`; returns how the export ended and the backups written along
      the way. */
  method ExtractAllNoteData(windows: seq<seq<View>>, openNote: View -> seq<View>, parseDate: string -> Date,
                            hashPair: ((string, Date)) -> int)
    returns (result: Extraction, backups: seq<seq<NoteData>>)
    ensures result == ExtractAll(windows, openNote, parseDate, hashPair)
    ensures BackupsArePrefixes(result.notes, backups)
  {
    var hash := RowHasher(parseDate, hashPair);
    var outcome, calls := TraverseListViewChildren(windows, hash, IsNoteListItemFullyVisible);
    TransformedRowsFullyVisible(windows, hash);
    result, backups := ExtractInOrder(calls, openNote, parseDate);
    if result.error.None? && outcome != Finished {
      result := Extraction(result.notes, Some(outcome.Message()));
    }
  }
}
