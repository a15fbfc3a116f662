/** The new-document filter of the scrapers and `run`, which parses a page,
    filters its entries and upserts the new ones.  The database is an
    oracle: the stored procedure `filter_new_documents` receives file names
    and answers with the rows of those it does not yet hold, and `upsert`
    answers with the rows it wrote. */
module BaseScraper {
  import opened Wrappers
  import opened Ordering

  /** A scraped entry; only its `filename` matters to the filter, and a
      missing key reads as `None`. */
  datatype Entry = Entry(filename: Option<string>, url: string, filetype: string)

  /** The `filename` of a row the database returns: a missing key, a null,
      or a name. */
  datatype RowName = Missing | Null | Name(name: string)

  /** `db.rpc('filter_new_documents', {'filenames': names}).execute().data`,
      or the exception the call raised. */
  type FilterRpc = seq<string> -> Try<seq<RowName>>

  /** `len(db.table('documents').upsert(entries, ...).execute().data)`, or
      the exception the call raised. */
  type Upsert = seq<Entry> -> Try<nat>

  /** Python's truth value of `entry.get("filename")`. */
  predicate HasName(e: Entry) {
    e.filename.Some? && e.filename.value != ""
  }

  /** `[entry.get("filename") for entry in entries if entry.get("filename")]`:
      the names of the entries that have one, in entry order. */
  function SentNames(entries: seq<Entry>): (names: seq<string>)
    ensures |names| == |Filter(entries, HasName)|
    ensures forall i :: 0 <= i < |names| ==> names[i] == Filter(entries, HasName)[i].filename.value
    ensures forall i :: 0 <= i < |names| ==> names[i] != ""
    ensures names == [] <==> forall i :: 0 <= i < |entries| ==> !HasName(entries[i])
  {
    if entries == [] then []
    else
      var last := entries[|entries| - 1];
      SentNames(entries[..|entries| - 1]) + if HasName(last) then [last.filename.value] else []
  }

  /** `{item['filename'] for item in rows}`: the names as `entry.get` would
      compare them (a null matches an entry without a name); a row without
      the key raises `KeyError`. */
  function MissingNames(rows: seq<RowName>): (r: Try<set<Option<string>>>)
    ensures r.Raised? <==> Missing in rows
    ensures r.Raised? ==> r.message == KeyErrorText("filename")
    ensures r.Ok? ==> forall n :: n in r.value <==> (n == None && Null in rows) || (n.Some? && Name(n.value) in rows)
  {
    if rows == [] then Ok({})
    else
      var rest := MissingNames(rows[1..]);
      assert forall x :: x in rows <==> x == rows[0] || x in rows[1..];
      match rows[0]
      case Missing => Raised(KeyErrorText("filename"))
      case Null => if rest.Raised? then rest else Ok(rest.value + {None})
      case Name(s) => if rest.Raised? then rest else Ok(rest.value + {Some(s)})
  }

  /** A row reports the entry's name missing from the database (a null row
      matches an entry without a name). */
  predicate Reported(e: Entry, rows: seq<RowName>) {
    if e.filename.None? then Null in rows else Name(e.filename.value) in rows
  }

  /** `filter_new(entries)`: nothing for no entries or for entries without
      a name, without asking the database; nothing when the call or reading
      its rows raises; otherwise the entries whose name a row reports, kept
      in their order (a `Filter`, which `FilterAppend` shows keeps order). */
  function FilterNew(rpc: FilterRpc, entries: seq<Entry>): (r: seq<Entry>)
    ensures entries == [] || SentNames(entries) == [] ==> r == []
    ensures rpc(SentNames(entries)).Raised? ==> r == []
    ensures rpc(SentNames(entries)).Ok? && Missing in rpc(SentNames(entries)).value ==> r == []
    ensures SentNames(entries) != [] && rpc(SentNames(entries)).Ok? ==>
      var rows := rpc(SentNames(entries)).value;
      Missing !in rows ==>
        && (forall i :: 0 <= i < |r| ==> r[i] in entries && Reported(r[i], rows))
        && (forall i :: 0 <= i < |entries| && Reported(entries[i], rows) ==> entries[i] in r)
        && r == Filter(entries, (e: Entry) => Reported(e, rows))
  {
    if entries == [] then []
    else
      var names := SentNames(entries);
      if names == [] then []
      else match rpc(names)
        case Raised(_) => []
        case Ok(rows) =>
          match MissingNames(rows)
          case Raised(_) => []
          case Ok(missing) =>
            FilterAgree(entries, (e: Entry) => e.filename in missing, (e: Entry) => Reported(e, rows));
            Filter(entries, (e: Entry) => e.filename in missing)
  }

  /** The database is consulted only about the names sent: two databases
      that answer those names alike give the same new entries. */
  lemma FilterNewDependsOnSentNames(rpc1: FilterRpc, rpc2: FilterRpc, entries: seq<Entry>)
    requires rpc1(SentNames(entries)) == rpc2(SentNames(entries))
    ensures FilterNew(rpc1, entries) == FilterNew(rpc2, entries)
  {
  }

  /** `run()` from the outcome of `self.parser.parse_entries(...)`: an
      exception of the parse step escapes, since it happens before the
      `try`; otherwise the count the upsert reports when the filter found
      new entries, 0 when it found none, and 0 when the upsert raises. */
  function Run(rpc: FilterRpc, upsert: Upsert, parsed: Try<seq<Entry>>): (r: Try<nat>)
    ensures parsed.Raised? ==> r == Raised(parsed.message)
    ensures parsed.Ok? ==> r.Ok?
    ensures parsed.Ok? && FilterNew(rpc, parsed.value) == [] ==> r == Ok(0)
    ensures parsed.Ok? && FilterNew(rpc, parsed.value) != [] && upsert(FilterNew(rpc, parsed.value)).Ok? ==>
      r == upsert(FilterNew(rpc, parsed.value))
    ensures parsed.Ok? && upsert(FilterNew(rpc, parsed.value)).Raised? ==> r == Ok(0)
    ensures r.Ok? && r.value > 0 ==>
      parsed.Ok? && FilterNew(rpc, parsed.value) != [] && upsert(FilterNew(rpc, parsed.value)) == r
  {
    match parsed
    case Raised(e) => Raised(e)
    case Ok(entries) =>
      var added := FilterNew(rpc, entries);
      if added == [] then Ok(0)
      else match upsert(added)
        case Ok(k) => Ok(k)
        case Raised(_) => Ok(0)
  }

  /** The parsers of the scrapers. */
  datatype ParserKind = NdmaParser | NeocParser | NdmaApiParser | PmdPrParser

  /** Python's `str(AttributeError)` for an attribute a `str` lacks. */
  function StrAttributeError(attr: string): string {
    "'str' object has no attribute '" + attr + "'"
  }

  /** `parse_entries(html)` as `run` calls it, with the page TEXT where the
      parser expects the response: the API parser's first step reads
      `.json`, every other parser's reads `.text`, and a `str` has neither. */
  function ParseEntriesOfText(kind: ParserKind, html: string): Try<seq<Entry>> {
    Raised(StrAttributeError(if kind == NdmaApiParser then "json" else "text"))
  }

  /** As written, `run` raises `AttributeError` on every page with every
      parser, before it consults the database or reaches its count. */
  lemma RunOnPageText(kind: ParserKind, html: string, rpc: FilterRpc, upsert: Upsert)
    ensures Run(rpc, upsert, ParseEntriesOfText(kind, html)).Raised?
    ensures Run(rpc, upsert, ParseEntriesOfText(kind, html)).message ==
      "'str' object has no attribute '" + (if kind == NdmaApiParser then "json" else "text") + "'"
  {
  }

  /** With the entries parsed from the response, as the parsers expect,
      `run` does not raise, and it reports a positive count only for the
      rows the upsert of genuinely new entries wrote. */
  lemma RunFromResponse(rpc: FilterRpc, upsert: Upsert, entries: seq<Entry>)
    ensures Run(rpc, upsert, Ok(entries)).Ok?
    ensures Run(rpc, upsert, Ok(entries)).value > 0 ==>
      && FilterNew(rpc, entries) != []
      && (forall i :: 0 <= i < |FilterNew(rpc, entries)| ==> FilterNew(rpc, entries)[i] in entries)
      && upsert(FilterNew(rpc, entries)) == Run(rpc, upsert, Ok(entries))
  {
  }
}
