/**
  The media synchroniser's bookkeeping (manage.py).

  A run lists the media files, subtracts the filenames already in the
  `media` table and a fixed ignore set, and then, for each remaining path,
  extracts title and year, looks the title up twice in the metadata service
  (short and full plot) and inserts one row.  A path that does not parse or
  whose lookups fail is skipped; a lookup that reports an error still
  yields a row, with every metadata column null.

  The table is a map from filename to row.  The directory listing, the
  outcome of the two lookups for each path, Unicode NFKD and the insertion
  time of each row are inputs.
 */
module MediaSync {
  import opened Wrappers
  import TitleExtractor
  import TitleNormalizer

  /** The entries of the listing that are never media (manage.py:73). */
  const IgnoreList: set<string> := {"movies/subtitles", "movies/old"}

  /**
    `media_files - db_entries - ignore_list` (manage.py:75): the paths to
    look at in this run.
   */
  function Candidates(mediaFiles: set<string>, dbEntries: set<string>): (r: set<string>)
    ensures forall p :: p in r <==> p in mediaFiles && p !in dbEntries && p !in IgnoreList
  {
    mediaFiles - dbEntries - IgnoreList
  }

  /** The JSON body of one metadata response, as the fields the synchroniser reads; None is an absent field. */
  datatype Response = Response(
    error: Option<string>,
    imdbId: Option<string>,
    year: Option<string>,
    runtime: Option<string>,
    genre: Option<string>,
    director: Option<string>,
    actors: Option<string>,
    plot: Option<string>,
    poster: Option<string>,
    metascore: Option<string>,
    imdbRating: Option<string>,
    kind: Option<string>)

  /** What the two lookups for one path came to: an exception from either request, or both responses. */
  datatype Lookup = RequestFailed | Fetched(first: Response, second: Response)

  /** `req1.json().get('Error')` is truthy: present and not the empty string. */
  predicate ReportsError(r: Response) {
    r.error.Some? && r.error.value != ""
  }

  /** The metadata written into a row; None is a null column. */
  datatype Info = Info(
    imdbId: Option<string>,
    year: Option<string>,
    runtime: Option<string>,
    genre: Option<string>,
    director: Option<string>,
    actors: Option<string>,
    shortPlot: Option<string>,
    fullPlot: Option<string>,
    poster: Option<string>,
    metascore: Option<string>,
    imdbRating: Option<string>,
    kind: Option<string>)

  /** `info = {}`: every metadata column null. */
  const NoInfo := Info(None, None, None, None, None, None, None, None, None, None, None, None)

  /** The first response with the second response's plot added as the full plot. */
  function InfoOf(first: Response, second: Response): Info {
    Info(first.imdbId, first.year, first.runtime, first.genre, first.director, first.actors,
         first.plot, second.plot, first.poster, first.metascore, first.imdbRating, first.kind)
  }

  /** One row of the `media` table. */
  datatype MediaRecord = MediaRecord(
    filename: string,
    filenameYear: string,
    title: string,
    titleNormalized: string,
    info: Info,
    dateAdded: int)

  /**
    The loop body for one path (manage.py:89-170): the row it inserts, or
    None when it skips the path.
   */
  function Step(path: string, lookup: Lookup, nfkd: string -> string, now: int): (r: Option<MediaRecord>)
    ensures r.Some? <==> TitleExtractor.Extract(path).Some? && lookup.Fetched?
    ensures r.Some? ==> r.value.filename == path
  {
    match TitleExtractor.Extract(path)
    case None => None
    case Some(parsed) =>
      match lookup
      case RequestFailed => None
      case Fetched(first, second) =>
        var info := if ReportsError(first) then NoInfo else InfoOf(first, second);
        Some(MediaRecord(path, parsed.year, parsed.title,
                         TitleNormalizer.Normalize(nfkd, parsed.title), info, now))
  }

  /** The row the loop inserts for each path, or None when it skips the path. */
  function RowOf(fetch: string -> Lookup, nfkd: string -> string, clock: string -> int): (row: string -> Option<MediaRecord>)
  {
    p => Step(p, fetch(p), nfkd, clock(p))
  }

  /** Each row a path yields is stored under that path. */
  ghost predicate KeyedByPath(row: string -> Option<MediaRecord>) {
    forall p :: row(p).Some? ==> row(p).value.filename == p
  }

  lemma RowOfKeyed(fetch: string -> Lookup, nfkd: string -> string, clock: string -> int)
    ensures KeyedByPath(RowOf(fetch, nfkd, clock))
  {
    var row := RowOf(fetch, nfkd, clock);
    forall p | row(p).Some? ensures row(p).value.filename == p {
      assert row(p) == Step(p, fetch(p), nfkd, clock(p));
    }
  }

  /** The rows a run inserts for the given candidates, keyed by filename. */
  function NewRows(candidates: set<string>, row: string -> Option<MediaRecord>): (rows: map<string, MediaRecord>)
    ensures forall p :: p in rows <==> p in candidates && row(p).Some?
    ensures forall p :: p in rows ==> rows[p] == row(p).value
  {
    map p | p in candidates && row(p).Some? :: row(p).value
  }

  /**
    Visiting one more candidate: storing the row it yields, if any, keeps the
    table equal to the base rows plus the rows of the candidates visited.
   */
  lemma NewRowsVisit(base: map<string, MediaRecord>, done: set<string>, path: string,
                     row: string -> Option<MediaRecord>, before: map<string, MediaRecord>,
                     after: map<string, MediaRecord>)
    requires before == base + NewRows(done, row)
    requires after == match row(path)
                      case None => before
                      case Some(rec) => before[path := rec]
    ensures after == base + NewRows(done + {path}, row)
  {
  }

  /**
    The `media` table.  Filenames are unique: each row is stored under its
    own filename.
   */
  class MediaTable {
    var rows: map<string, MediaRecord>

    ghost predicate Valid()
      reads this
    {
      forall f :: f in rows ==> rows[f].filename == f
    }

    /** `CREATE TABLE IF NOT EXISTS media` on a fresh database. */
    constructor ()
      ensures Valid() && rows == map[]
    {
      rows := map[];
    }

    /** `SELECT filename FROM media`, as a set (manage.py:69-70). */
    function Filenames(): (names: set<string>)
      reads this
      ensures forall f :: f in names <==> f in rows
    {
      rows.Keys
    }

    /**
      `INSERT INTO media`, against the UNIQUE constraint on filename
      (manage.py:47): `ok` is false exactly when a row with that filename
      exists, and only a successful insert changes the table.  In SQLite the
      failing case raises IntegrityError, which nothing in manage.py catches;
      the loop never reaches it, since every candidate is new (`SyncPath`
      proves `ok`).
     */
    method Insert(row: MediaRecord) returns (ok: bool)
      requires Valid()
      modifies this
      ensures Valid()
      ensures ok <==> row.filename !in old(rows)
      ensures rows == if ok then old(rows)[row.filename := row] else old(rows)
    {
      ok := row.filename !in rows;
      if ok {
        rows := rows[row.filename := row];
      }
    }
  }

  /** The row function applied to one path is the loop body for that path. */
  lemma RowOfApply(fetch: string -> Lookup, nfkd: string -> string, clock: string -> int, path: string)
    ensures RowOf(fetch, nfkd, clock)(path) == Step(path, fetch(path), nfkd, clock(path))
  {
  }

  /**
    One pass of the loop (manage.py:89-170) for a path not yet in the
    table: parse, look up, and insert the row `Step` describes, or skip.
   */
  method SyncPath(db: MediaTable, path: string, lookup: Lookup, nfkd: string -> string, now: int)
    requires db.Valid() && path !in db.rows
    modifies db
    ensures db.Valid()
    ensures db.rows == match Step(path, lookup, nfkd, now)
                       case None => old(db.rows)
                       case Some(rec) => old(db.rows)[path := rec]
  {
    var parsed := TitleExtractor.Extract(path);
    if parsed.None? {
      return;  // formatted wrong: skipped, and revisited on the next run
    }
    if lookup.RequestFailed? {
      return;  // the service is unreachable: tried again next time
    }
    var info := if ReportsError(lookup.first) then NoInfo else InfoOf(lookup.first, lookup.second);
    var normalized := TitleNormalizer.Normalize(nfkd, parsed.value.title);
    var ok := db.Insert(MediaRecord(path, parsed.value.year, parsed.value.title, normalized, info, now));
    assert ok;
  }

  /**
    One run of the synchroniser (manage.py:69-173).  The candidates are
    visited in no particular order, as the source iterates over a list made
    from a set.  Given each path's lookup outcome and insertion time, the
    table does not depend on the order; in the source those inputs
    themselves follow the order (each row's time is taken at its own insert,
    with a pause after every file, and a request limit is reached by
    whichever lookup comes later).  Every row already in the table stays as
    it was, every candidate gets at most its own row, and filenames stay
    unique.
   */
  method Run(db: MediaTable, mediaFiles: set<string>, fetch: string -> Lookup,
             nfkd: string -> string, clock: string -> int)
    requires db.Valid()
    modifies db
    ensures db.Valid()
    ensures db.rows == AfterRun(old(db.rows), mediaFiles, RowOf(fetch, nfkd, clock))
  {
    ghost var row := RowOf(fetch, nfkd, clock);
    var dbEntries := db.Filenames();
    assert dbEntries == old(db.rows).Keys;
    var unmatched := Candidates(mediaFiles, dbEntries);
    var remaining := unmatched;
    ghost var done: set<string> := {};
    while remaining != {}
      invariant db.Valid()
      invariant remaining <= unmatched && done == unmatched - remaining
      invariant db.rows == old(db.rows) + NewRows(done, row)
      decreases remaining
    {
      var path :| path in remaining;
      RowOfApply(fetch, nfkd, clock, path);
      label Visit:
      // a candidate is neither in the old table nor among the rows added so far
      SyncPath(db, path, fetch(path), nfkd, clock(path));
      NewRowsVisit(old(db.rows), done, path, row, old@Visit(db.rows), db.rows);
      remaining := remaining - {path};
      done := done + {path};
    }
    assert done == unmatched;
  }

  /** A path the extractor rejects gets no row, whatever the service says. */
  lemma UnparsedPathSkipped(path: string, lookup: Lookup, nfkd: string -> string, now: int)
    requires TitleExtractor.Extract(path).None?
    ensures Step(path, lookup, nfkd, now).None?
  {
  }

  /**
    A found entry: the row holds the extracted title and year, the
    normalised title, the first response's fields with its plot as the
    short plot, and the second response's plot as the full plot.
   */
  lemma FoundRow(path: string, first: Response, second: Response, nfkd: string -> string, now: int)
    requires TitleExtractor.Extract(path).Some? && !ReportsError(first)
    ensures var parsed := TitleExtractor.Extract(path).value;
            var r := Step(path, Fetched(first, second), nfkd, now);
            r.Some? && r.value.title == parsed.title && r.value.filenameYear == parsed.year
            && r.value.titleNormalized == TitleNormalizer.Normalize(nfkd, parsed.title)
            && r.value.info.imdbId == first.imdbId && r.value.info.year == first.year
            && r.value.info.runtime == first.runtime && r.value.info.genre == first.genre
            && r.value.info.director == first.director && r.value.info.actors == first.actors
            && r.value.info.shortPlot == first.plot && r.value.info.fullPlot == second.plot
            && r.value.info.poster == first.poster && r.value.info.metascore == first.metascore
            && r.value.info.imdbRating == first.imdbRating && r.value.info.kind == first.kind
            && r.value.dateAdded == now
  {
  }

  /**
    An entry the service does not know still gets a row: filename, title,
    year and normalised title filled in, every metadata column null, and
    the second response ignored.
   */
  lemma NotFoundRow(path: string, first: Response, second: Response, nfkd: string -> string, now: int)
    requires TitleExtractor.Extract(path).Some? && ReportsError(first)
    ensures var parsed := TitleExtractor.Extract(path).value;
            var r := Step(path, Fetched(first, second), nfkd, now);
            r.Some? && r.value.title == parsed.title && r.value.filenameYear == parsed.year
            && r.value.titleNormalized == TitleNormalizer.Normalize(nfkd, parsed.title)
            && r.value.info.imdbId.None? && r.value.info.year.None? && r.value.info.runtime.None?
            && r.value.info.genre.None? && r.value.info.director.None? && r.value.info.actors.None?
            && r.value.info.shortPlot.None? && r.value.info.fullPlot.None? && r.value.info.poster.None?
            && r.value.info.metascore.None? && r.value.info.imdbRating.None? && r.value.info.kind.None?
            && r.value.dateAdded == now
            && forall second' :: Step(path, Fetched(first, second'), nfkd, now) == r
  {
  }

  /** The table a run leaves behind: the old rows and one new row for each candidate that yields one. */
  function AfterRun(rows: map<string, MediaRecord>, mediaFiles: set<string>,
                    row: string -> Option<MediaRecord>): (after: map<string, MediaRecord>)
    ensures forall f :: f in after <==> f in rows || (f in Candidates(mediaFiles, rows.Keys) && row(f).Some?)
    ensures forall f :: f in rows ==> after[f] == rows[f]
    ensures forall f :: f in after && f !in rows ==> after[f] == row(f).value
  {
    rows + NewRows(Candidates(mediaFiles, rows.Keys), row)
  }

  /** A run keeps filenames unique: every row, old or new, is stored under its own filename. */
  lemma AfterRunKeyed(rows: map<string, MediaRecord>, mediaFiles: set<string>, row: string -> Option<MediaRecord>)
    requires forall f :: f in rows ==> rows[f].filename == f
    requires KeyedByPath(row)
    ensures var after := AfterRun(rows, mediaFiles, row);
            forall f :: f in after ==> after[f].filename == f
  {
  }

  /**
    A second run over the same listing looks again at exactly the paths the
    first run skipped.
   */
  lemma RerunCandidates(rows: map<string, MediaRecord>, mediaFiles: set<string>, row: string -> Option<MediaRecord>)
    ensures var after := AfterRun(rows, mediaFiles, row);
            forall p :: p in Candidates(mediaFiles, after.Keys) <==>
                        p in Candidates(mediaFiles, rows.Keys) && row(p).None?
  {
  }

  /**
    With the same listing and the same outcome for every path, a second run
    adds nothing: running twice is running once.
   */
  lemma RerunIdempotent(rows: map<string, MediaRecord>, mediaFiles: set<string>,
                        row: string -> Option<MediaRecord>)
    ensures var after := AfterRun(rows, mediaFiles, row);
            AfterRun(after, mediaFiles, row) == after
  {
  }

  /**
    A well-formed path whose lookups failed is retried: once the service
    answers, the next run gives it a row.
   */
  lemma FailedLookupRetried(rows: map<string, MediaRecord>, mediaFiles: set<string>,
                            fetch: string -> Lookup, fetch': string -> Lookup,
                            nfkd: string -> string, clock: string -> int, clock': string -> int,
                            path: string)
    requires path in Candidates(mediaFiles, rows.Keys)
    requires TitleExtractor.Extract(path).Some?
    requires fetch(path).RequestFailed? && fetch'(path).Fetched?
    ensures var after := AfterRun(rows, mediaFiles, RowOf(fetch, nfkd, clock));
            path !in after && path in AfterRun(after, mediaFiles, RowOf(fetch', nfkd, clock'))
  {
  }

  /** The listing of the example run: one well-formed movie and the ignored subtitles directory. */
  const AlienListing: set<string> := {"movies/Alien (1979)", "movies/subtitles"}

  lemma AlienCandidates()
    ensures Candidates(AlienListing, {}) == {"movies/Alien (1979)"}
  {
  }

  /** A run on an empty table whose listing leaves one candidate: that candidate's row, if any, is the whole table. */
  lemma SingleCandidateRun(mediaFiles: set<string>, path: string, row: string -> Option<MediaRecord>)
    requires Candidates(mediaFiles, {}) == {path}
    ensures var after := AfterRun(map[], mediaFiles, row);
            after.Keys == (if row(path).Some? then {path} else {})
            && (row(path).Some? ==> after[path] == row(path).value)
  {
  }

  /** The loop body on the example movie, once the service answers. */
  lemma AlienRow(fetch: string -> Lookup, nfkd: string -> string, clock: string -> int)
    requires fetch("movies/Alien (1979)").Fetched?
    ensures var r := RowOf(fetch, nfkd, clock)("movies/Alien (1979)");
            r.Some? && r.value.title == "Alien" && r.value.filenameYear == "1979"
  {
    TitleExtractor.AlienExample();
    RowOfApply(fetch, nfkd, clock, "movies/Alien (1979)");
  }

  /**
    On an empty table, the example listing gives the movie alone a row,
    titled "Alien" with year "1979".
   */
  lemma AlienRun(fetch: string -> Lookup, nfkd: string -> string, clock: string -> int)
    requires fetch("movies/Alien (1979)").Fetched?
    ensures var after := AfterRun(map[], AlienListing, RowOf(fetch, nfkd, clock));
            after.Keys == {"movies/Alien (1979)"}
            && after["movies/Alien (1979)"].title == "Alien"
            && after["movies/Alien (1979)"].filenameYear == "1979"
  {
    AlienCandidates();
    AlienRow(fetch, nfkd, clock);
    SingleCandidateRun(AlienListing, "movies/Alien (1979)", RowOf(fetch, nfkd, clock));
  }

  // The loop body as written in manage.py, where the full plot is read
  // with `req2.json()['Plot']` rather than `.get('Plot')`.

  /** What one pass of the loop does as written: skip, insert, or raise out of the script. */
  datatype StepResult = Skip | Insert(row: MediaRecord) | Crash

  /**
    The loop body as written (manage.py:89-170).  A found entry whose second
    response lacks "Plot" raises KeyError at manage.py:121, outside any
    try; everywhere else it agrees with `Step`.
   */
  function StepAsWritten(path: string, lookup: Lookup, nfkd: string -> string, now: int): (r: StepResult)
    ensures r.Crash? <==> TitleExtractor.Extract(path).Some? && lookup.Fetched?
                          && !ReportsError(lookup.first) && lookup.second.plot.None?
    ensures !r.Crash? ==> (r.Insert? <==> Step(path, lookup, nfkd, now).Some?)
    ensures r.Insert? ==> r.row == Step(path, lookup, nfkd, now).value
  {
    match TitleExtractor.Extract(path)
    case None => Skip
    case Some(parsed) =>
      match lookup
      case RequestFailed => Skip
      case Fetched(first, second) =>
        if !ReportsError(first) && second.plot.None? then Crash
        else
          var info := if ReportsError(first) then NoInfo else InfoOf(first, second);
          Insert(MediaRecord(path, parsed.year, parsed.title,
                             TitleNormalizer.Normalize(nfkd, parsed.title), info, now))
  }

  /** Whether some candidate of the run raises as written. */
  predicate RunCrashes(rows: map<string, MediaRecord>, mediaFiles: set<string>, fetch: string -> Lookup,
                       nfkd: string -> string, clock: string -> int)
  {
    exists p :: p in Candidates(mediaFiles, rows.Keys) && StepAsWritten(p, fetch(p), nfkd, clock(p)).Crash?
  }

  /**
    The table after a run as written: an exception ends the script before
    `db_conn.commit()` (manage.py:175), so no row of the run is kept.
   */
  function AfterRunAsWritten(rows: map<string, MediaRecord>, mediaFiles: set<string>, fetch: string -> Lookup,
                             nfkd: string -> string, clock: string -> int): (after: map<string, MediaRecord>)
    ensures forall f :: f in rows ==> f in after && after[f] == rows[f]
    ensures forall f :: f in after ==> f in AfterRun(rows, mediaFiles, RowOf(fetch, nfkd, clock))
  {
    if RunCrashes(rows, mediaFiles, fetch, nfkd, clock) then rows
    else AfterRun(rows, mediaFiles, RowOf(fetch, nfkd, clock))
  }

  /** Where no candidate raises, the run as written is the corrected run. */
  lemma NoCrashAsIntended(rows: map<string, MediaRecord>, mediaFiles: set<string>, fetch: string -> Lookup,
                          nfkd: string -> string, clock: string -> int)
    requires !RunCrashes(rows, mediaFiles, fetch, nfkd, clock)
    ensures AfterRunAsWritten(rows, mediaFiles, fetch, nfkd, clock) == AfterRun(rows, mediaFiles, RowOf(fetch, nfkd, clock))
  {
  }

  /** A single plotless second response for a found entry discards the run, rows of other paths included. */
  lemma CrashDiscardsRun(rows: map<string, MediaRecord>, mediaFiles: set<string>, fetch: string -> Lookup,
                         nfkd: string -> string, clock: string -> int, path: string)
    requires path in Candidates(mediaFiles, rows.Keys)
    requires TitleExtractor.Extract(path).Some? && fetch(path).Fetched?
    requires !ReportsError(fetch(path).first) && fetch(path).second.plot.None?
    ensures AfterRunAsWritten(rows, mediaFiles, fetch, nfkd, clock) == rows
    ensures path in AfterRun(rows, mediaFiles, RowOf(fetch, nfkd, clock))
    ensures AfterRun(rows, mediaFiles, RowOf(fetch, nfkd, clock))[path].info.fullPlot.None?
  {
  }

  /** The service's answer to a lookup of Alien (1979), plot included. */
  const AlienFound := Response(None, Some("tt0078748"), Some("1979"), Some("117 min"), Some("Horror, Sci-Fi"),
                               Some("Ridley Scott"), Some("Sigourney Weaver"), Some("A crew meets a creature."),
                               None, Some("89"), Some("8.5"), Some("movie"))

  /** The second answer when the service stops answering between the two lookups: an error, and no "Plot". */
  const LimitReached := Response(Some("Request limit reached!"), None, None, None, None, None, None, None,
                                 None, None, None, None)

  /**
    The input that shows the KeyError: for the example listing, the first
    lookup finds Alien and the second reports an error.  As written, the run
    leaves the table empty; the corrected loop keeps Alien's row, with a
    null full plot.
   */
  lemma PlotlessSecondResponseLosesRun(nfkd: string -> string, clock: string -> int)
    ensures var fetch := (p: string) => Fetched(AlienFound, LimitReached);
            AfterRunAsWritten(map[], AlienListing, fetch, nfkd, clock) == map[]
            && "movies/Alien (1979)" in AfterRun(map[], AlienListing, RowOf(fetch, nfkd, clock))
  {
    var fetch := (p: string) => Fetched(AlienFound, LimitReached);
    TitleExtractor.AlienExample();
    AlienCandidates();
    CrashDiscardsRun(map[], AlienListing, fetch, nfkd, clock, "movies/Alien (1979)");
  }
}
