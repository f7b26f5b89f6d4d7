/** The records of data.py: what a list row shows, what a note's page shows, and the
    exported note. Dates are values of an abstract type; Python's `hash`, `str` of a date
    and `datetime.isoformat` are passed in as functions. */
module Data {
  import opened Wrappers

  /** A `datetime`. */
  type Date(==, !new)

  /** What one row of the notes list shows. */
  datatype NoteListItemData = NoteListItemData(title: string, date: Date)

  /** What a note's own page shows. */
  datatype NotePageData = NotePageData(title: string, text: string)

  /** One exported note. */
  datatype NoteData = NoteData(title: string, text: string, date: Date)

  // The constructors called without arguments: empty title and text. The default date is
  // the clock reading `now`.

  function DefaultNoteListItemData(now: Date): (r: NoteListItemData)
    ensures r.title == "" && r.date == now
  {
    NoteListItemData("", now)
  }

  function DefaultNotePageData(): (r: NotePageData)
    ensures r.title == "" && r.text == ""
  {
    NotePageData("", "")
  }

  function DefaultNoteData(now: Date): (r: NoteData)
    ensures r.title == "" && r.text == "" && r.date == now
  {
    NoteData("", "", now)
  }

  /** `NoteData.__eq__`: two notes are equal exactly when they are the same note. */
  function Equals(a: NoteData, b: NoteData): (r: bool)
    ensures r <==> a == b
  {
    a.title == b.title && a.text == b.text && a.date == b.date
  }

  /** `NoteData.__hash__`, with `hashTriple` standing for Python's hash of a
      (title, text, date) tuple. */
  function Hash(n: NoteData, hashTriple: ((string, string, Date)) -> int): int
  {
    hashTriple((n.title, n.text, n.date))
  }

  /** Notes that are equal have equal hashes. */
  lemma EqualNotesHashEqually(a: NoteData, b: NoteData, hashTriple: ((string, string, Date)) -> int)
    requires Equals(a, b)
    ensures Hash(a, hashTriple) == Hash(b, hashTriple)
  {
  }

  /** `NoteData.__str__`, with `dateStr` standing for `str` of a date. */
  function Str(n: NoteData, dateStr: Date -> string): string
  {
    "(" + dateStr(n.date) + ") " + n.title
  }

  /** `NoteData.__repr__` is `__str__`. */
  function Repr(n: NoteData, dateStr: Date -> string): (r: string)
    ensures r == Str(n, dateStr)
  {
    Str(n, dateStr)
  }

  /** The printed note is the date in parentheses, a space, then the title: the date and
      the title can both be read back from it. */
  lemma StrLayout(n: NoteData, dateStr: Date -> string)
    ensures var s := Str(n, dateStr);
      var d := dateStr(n.date);
      && |s| == |d| + |n.title| + 3
      && s[0] == '('
      && s[1..|d| + 1] == d
      && s[|d| + 1..|d| + 3] == ") "
      && s[|d| + 3..] == n.title
  {
    var s := Str(n, dateStr);
    var d := dateStr(n.date);
    assert s == ("(" + d) + ") " + n.title;
    assert s[1..|d| + 1] == d;
  }

  /** `NoteData.toJson`, with `iso` standing for `datetime.isoformat`: an object with
      exactly the keys title, text and date. */
  function ToJson(n: NoteData, iso: Date -> string): (r: map<string, string>)
    ensures r.Keys == {"title", "text", "date"}
    ensures r["title"] == n.title && r["text"] == n.text && r["date"] == iso(n.date)
  {
    map["title" := n.title, "text" := n.text, "date" := iso(n.date)]
  }

  /** Reading a note back from its JSON object, with `parseIso` the ISO-8601 reader. */
  function FromJson(m: map<string, string>, parseIso: string -> Option<Date>): Option<NoteData>
  {
    if "title" in m && "text" in m && "date" in m then
      match parseIso(m["date"])
      case Some(d) => Some(NoteData(m["title"], m["text"], d))
      case None => None
    else None
  }

  /** A note's JSON object reads back as the same note, whenever the ISO reader inverts
      the ISO writer. */
  lemma JsonRoundTrip(n: NoteData, iso: Date -> string, parseIso: string -> Option<Date>)
    requires forall d :: parseIso(iso(d)) == Some(d)
    ensures FromJson(ToJson(n, iso), parseIso) == Some(n)
  {
    var m := ToJson(n, iso);
    assert parseIso(m["date"]) == Some(n.date);
  }

  /** Different notes give different JSON objects, whenever different dates give different
      ISO strings. */
  lemma ToJsonInjective(a: NoteData, b: NoteData, iso: Date -> string)
    requires forall d1, d2 :: iso(d1) == iso(d2) ==> d1 == d2
    requires ToJson(a, iso) == ToJson(b, iso)
    ensures a == b
  {
    assert ToJson(a, iso)["date"] == ToJson(b, iso)["date"];
  }
}
