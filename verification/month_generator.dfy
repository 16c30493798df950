/**
 * The `generate_month_quotes` management command: for every day of one
 * month, skip days that already have a quote, otherwise try up to five
 * generated candidates and store the first acceptable one.
 *
 * The language-model call and the random choice of playwright are not
 * modelled as computations: the run receives the stream of fetch results,
 * one per attempt, in the order the attempts consume them.
 */
module MonthGenerator {
  import opened Wrappers
  import opened Calendar
  import opened Strings
  import QuoteModels

  const MaxAttempts: nat := 5
  const DramaTagPrefix: string := "\U{622F}\U{66F2},"
  const AozoraBunko: string := "\U{9752}\U{7A7A}\U{6587}\U{5EAB}"

  /**
   * One parsed record of the language model, with the playwright drawn for
   * that attempt; a key missing from the record reads as "".
   */
  datatype Candidate = Candidate(
    playwright: string,
    textJa: string,
    sourceJa: string,
    textOriginal: string,
    sourceOriginal: string,
    wikiUrl: string)

  /** The outcome of one fetch attempt: an exception, or a parsed record. */
  datatype Fetch = FetchFailed | Fetched(candidate: Candidate)

  /** The row the command creates (the field set after migration 0002). */
  datatype GeneratedQuote = GeneratedQuote(
    text: string,
    originalText: string,
    authorName: string,
    source: string,
    originalSource: string,
    category: QuoteModels.Category,
    tags: string,
    publishDate: Date,
    isPublicDomain: bool,
    amazonKey: string,
    wikiKey: string,
    bgImageUrl: string,
    likeCount: nat)

  /** The command line and environment: the API key, the optional year and month, `--dry-run`. */
  datatype Options = Options(apiKey: Option<string>, year: Option<int>, month: Option<int>, dryRun: bool)

  datatype Failure = MissingApiKey | MonthOutOfRange | YearOutOfRange

  /**
   * A failed command, or the table after the run, the number of rows it
   * created and how many fetch attempts it made.
   */
  datatype Outcome =
    | Failed(failure: Failure)
    | Done(rows: seq<GeneratedQuote>, createdCount: nat, fetchesUsed: nat)

  predicate ApiKeyPresent(opts: Options) {
    opts.apiKey.Some? && opts.apiKey.value != ""
  }

  /** Python's `value or fallback` for an optional integer argument. */
  function OrFallback(arg: Option<int>, fallback: int): (r: int)
    ensures arg.Some? && arg.value != 0 ==> r == arg.value
    ensures arg.None? || arg.value == 0 ==> r == fallback
  {
    if arg.None? || arg.value == 0 then fallback else arg.value
  }

  /** The record an attempt reads, every text field stripped; `None` for a failed fetch. */
  function Read(f: Fetch): Option<Candidate> {
    if f.FetchFailed? then None else Some(Stripped(f.candidate))
  }

  /** What the run's `k`-th attempt reads; past the end of the stream every fetch fails. */
  function ReadingAt(readings: seq<Option<Candidate>>, k: nat): Option<Candidate> {
    if k < |readings| then readings[k] else None
  }

  /** Every text field stripped, as the command reads the record. */
  function Stripped(c: Candidate): Candidate {
    Candidate(c.playwright, PyStrip(c.textJa), PyStrip(c.sourceJa),
      PyStrip(c.textOriginal), PyStrip(c.sourceOriginal), PyStrip(c.wikiUrl))
  }

  predicate HasText(rows: seq<GeneratedQuote>, text: string) {
    exists i | 0 <= i < |rows| :: rows[i].text == text
  }

  predicate HasDate(rows: seq<GeneratedQuote>, d: Date) {
    exists i | 0 <= i < |rows| :: rows[i].publishDate == d
  }

  /** A stripped record is kept when both Japanese fields are non-empty and, outside a dry run, its text is new. */
  predicate Acceptable(c: Candidate, rows: seq<GeneratedQuote>, dryRun: bool) {
    c.textJa != "" && c.sourceJa != "" && (dryRun || !HasText(rows, c.textJa))
  }

  predicate AcceptedAt(readings: seq<Option<Candidate>>, k: nat, rows: seq<GeneratedQuote>, dryRun: bool) {
    ReadingAt(readings, k).Some? && Acceptable(ReadingAt(readings, k).value, rows, dryRun)
  }

  /** No attempt at a stream position in `[lo, hi)` yields an acceptable record. */
  predicate NoneAccepted(readings: seq<Option<Candidate>>, lo: nat, hi: nat, rows: seq<GeneratedQuote>, dryRun: bool) {
    forall k :: lo <= k < hi ==> !AcceptedAt(readings, k, rows, dryRun)
  }

  /**
   * The attempt loop of one day, starting at stream position `pos` of the
   * records as read: the
   * first acceptable record among the next `attempts` fetches, and the
   * stream position after the last attempt made.
   */
  function TryCandidates(readings: seq<Option<Candidate>>, pos: nat, attempts: nat, rows: seq<GeneratedQuote>, dryRun: bool)
    : (r: (Option<Candidate>, nat))
    decreases attempts
    ensures pos <= r.1 <= pos + attempts
    ensures r.0.Some? ==> pos < r.1 && AcceptedAt(readings, r.1 - 1, rows, dryRun)
    ensures r.0.Some? ==> r.0.value == ReadingAt(readings, r.1 - 1).value
    ensures r.0.Some? ==> NoneAccepted(readings, pos, r.1 - 1, rows, dryRun)
    ensures r.0.None? ==> r.1 == pos + attempts && NoneAccepted(readings, pos, r.1, rows, dryRun)
  {
    if attempts == 0 then (None, pos)
    else if AcceptedAt(readings, pos, rows, dryRun) then (ReadingAt(readings, pos), pos + 1)
    else
      var r := TryCandidates(readings, pos + 1, attempts - 1, rows, dryRun);
      assert NoneAccepted(readings, pos, if r.0.Some? then r.1 - 1 else r.1, rows, dryRun);
      r
  }

  /** The row created for an accepted record. */
  function NewRow(c: Candidate, date: Date): (row: GeneratedQuote)
    ensures GeneratedShape(row) <==> c.textJa != "" && c.sourceJa != ""
    ensures row.publishDate == date && row.text == c.textJa && row.authorName == c.playwright
    ensures row.originalText == c.textOriginal && row.source == c.sourceJa && row.originalSource == c.sourceOriginal
    ensures row.wikiKey == c.wikiUrl
  {
    GeneratedQuote(c.textJa, c.textOriginal, c.playwright, c.sourceJa, c.sourceOriginal,
      QuoteModels.Classic, DramaTagPrefix + c.playwright, date, true, AozoraBunko, c.wikiUrl, "", 0)
  }

  /** The fixed fields of every generated row, and its non-empty text and source. */
  predicate GeneratedShape(row: GeneratedQuote) {
    && row.text != ""
    && row.source != ""
    && row.category == QuoteModels.Classic
    && row.tags == DramaTagPrefix + row.authorName
    && row.isPublicDomain
    && row.amazonKey == AozoraBunko
    && row.bgImageUrl == ""
    && row.likeCount == 0
  }

  predicate UniqueDates(rows: seq<GeneratedQuote>) {
    forall i, j :: 0 <= i < j < |rows| ==> rows[i].publishDate != rows[j].publishDate
  }

  predicate UniqueTexts(rows: seq<GeneratedQuote>) {
    forall i, j :: 0 <= i < j < |rows| ==> rows[i].text != rows[j].text
  }

  predicate InMonth(d: Date, year: int, month: int) {
    1 <= month <= 12 && d.year == year && d.month == month && 1 <= d.day <= DaysInMonth(year, month)
  }

  /** The records as read by the successive attempts of a run. */
  function Readings(fetches: seq<Fetch>): seq<Option<Candidate>> {
    seq(|fetches|, k requires 0 <= k < |fetches| => Read(fetches[k]))
  }

  /**
   * One day of the command, from the table `rows` and stream position
   * `pos`: outside a dry run a day that already has a quote is skipped
   * without any fetch; any other day spends the attempts `TryCandidates`
   * makes, and outside a dry run gains the row of the record accepted, if
   * one is. The result is the table and stream position afterwards.
   */
  function DayStep(readings: seq<Option<Candidate>>, date: Date, rows: seq<GeneratedQuote>, pos: nat, dryRun: bool)
    : (seq<GeneratedQuote>, nat)
  {
    if !dryRun && HasDate(rows, date) then (rows, pos)
    else
      var tried := TryCandidates(readings, pos, MaxAttempts, rows, dryRun);
      (if tried.0.Some? && !dryRun then rows + [NewRow(tried.0.value, date)] else rows, tried.1)
  }

  /** The days `day..numDays` of the month, processed one after another: the final table and stream position. */
  function RunFrom(readings: seq<Option<Candidate>>, year: int, month: int, numDays: int, day: int,
                   rows: seq<GeneratedQuote>, pos: nat, dryRun: bool): (r: (seq<GeneratedQuote>, nat))
    decreases numDays + 1 - day
  {
    if day > numDays then (rows, pos)
    else
      var next := DayStep(readings, Date(year, month, day), rows, pos, dryRun);
      RunFrom(readings, year, month, numDays, day + 1, next.0, next.1, dryRun)
  }

  /** A day keeps the run's facts, creates at most one row, none in a dry run, and spends at most five attempts. */
  lemma DayStepKeepsRunInvariant(readings: seq<Option<Candidate>>, year: int, month: int, day: int,
                                 existing: seq<GeneratedQuote>, rows: seq<GeneratedQuote>, pos: nat, dryRun: bool)
    requires 1 <= month <= 12 && 1 <= day <= DaysInMonth(year, month)
    requires RunInvariant(existing, rows, year, month, day)
    ensures var next := DayStep(readings, Date(year, month, day), rows, pos, dryRun);
      && RunInvariant(existing, next.0, year, month, day + 1)
      && (next.0 == rows || (|next.0| == |rows| + 1 && next.0[..|rows|] == rows))
      && (dryRun ==> next.0 == rows)
      && next.1 <= pos + MaxAttempts
  {
    var date := Date(year, month, day);
    if dryRun || !HasDate(rows, date) {
      var tried := TryCandidates(readings, pos, MaxAttempts, rows, dryRun);
      if tried.0.Some? && !dryRun {
        AppendKeepsRunInvariant(existing, rows, NewRow(tried.0.value, date), year, month, day);
      }
    }
  }

  /** The rest of the month keeps the run's facts, creates nothing in a dry run, and spends at most five attempts a day. */
  lemma {:induction false} RunFromKeepsRunInvariant(readings: seq<Option<Candidate>>, year: int, month: int, numDays: int,
                                                     day: int, existing: seq<GeneratedQuote>, rows: seq<GeneratedQuote>,
                                                     pos: nat, dryRun: bool)
    requires 1 <= month <= 12 && numDays == DaysInMonth(year, month) && 1 <= day <= numDays + 1
    requires RunInvariant(existing, rows, year, month, day)
    requires dryRun ==> rows == existing
    ensures var r := RunFrom(readings, year, month, numDays, day, rows, pos, dryRun);
      && RunInvariant(existing, r.0, year, month, numDays + 1)
      && (dryRun ==> r.0 == existing)
      && r.1 <= pos + MaxAttempts * (numDays + 1 - day)
    decreases numDays + 1 - day
  {
    if day <= numDays {
      var next := DayStep(readings, Date(year, month, day), rows, pos, dryRun);
      DayStepKeepsRunInvariant(readings, year, month, day, existing, rows, pos, dryRun);
      RunFromKeepsRunInvariant(readings, year, month, numDays, day + 1, existing, next.0, next.1, dryRun);
    }
  }

  /** Outside a dry run, a day that already has a quote is skipped without any fetch. */
  lemma TakenDaySkipped(readings: seq<Option<Candidate>>, year: int, month: int, numDays: int, day: int,
                        rows: seq<GeneratedQuote>, pos: nat)
    requires 1 <= day <= numDays
    requires HasDate(rows, Date(year, month, day))
    ensures RunFrom(readings, year, month, numDays, day, rows, pos, false)
         == RunFrom(readings, year, month, numDays, day + 1, rows, pos, false)
  {
  }

  /**
   * A free day whose attempt `k`, among its five, is the first to read an
   * acceptable record gains exactly that record's row, and the next day
   * starts right after attempt `k`.
   */
  lemma FreeDayTakesFirstAcceptable(readings: seq<Option<Candidate>>, year: int, month: int, numDays: int, day: int,
                                    rows: seq<GeneratedQuote>, pos: nat, k: nat)
    requires 1 <= day <= numDays
    requires !HasDate(rows, Date(year, month, day))
    requires pos <= k < pos + MaxAttempts
    requires AcceptedAt(readings, k, rows, false) && NoneAccepted(readings, pos, k, rows, false)
    ensures RunFrom(readings, year, month, numDays, day, rows, pos, false)
         == RunFrom(readings, year, month, numDays, day + 1,
                    rows + [NewRow(ReadingAt(readings, k).value, Date(year, month, day))], k + 1, false)
  {
    var tried := TryCandidates(readings, pos, MaxAttempts, rows, false);
    assert tried.0.Some? && tried.1 == k + 1;
  }

  /** A free day none of whose five attempts reads an acceptable record gains nothing and spends all five. */
  lemma FreeDayWithoutRecord(readings: seq<Option<Candidate>>, year: int, month: int, numDays: int, day: int,
                             rows: seq<GeneratedQuote>, pos: nat, dryRun: bool)
    requires 1 <= day <= numDays
    requires dryRun || !HasDate(rows, Date(year, month, day))
    requires NoneAccepted(readings, pos, pos + MaxAttempts, rows, dryRun)
    ensures RunFrom(readings, year, month, numDays, day, rows, pos, dryRun)
         == RunFrom(readings, year, month, numDays, day + 1, rows, pos + MaxAttempts, dryRun)
  {
    var tried := TryCandidates(readings, pos, MaxAttempts, rows, dryRun);
    assert tried.0.None?;
  }

  /** The table and position a whole month's run ends with: the run's facts hold, a dry run creates nothing, at most five attempts a day. */
  lemma RunOfMonth(readings: seq<Option<Candidate>>, year: int, month: int, numDays: int, existing: seq<GeneratedQuote>,
                   rows: seq<GeneratedQuote>, pos: nat, dryRun: bool)
    requires 1 <= month <= 12 && numDays == DaysInMonth(year, month)
    requires (rows, pos) == RunFrom(readings, year, month, numDays, 1, existing, 0, dryRun)
    ensures |existing| <= |rows| && rows[..|existing|] == existing
    ensures dryRun ==> rows == existing
    ensures forall i :: |existing| <= i < |rows| ==> GeneratedShape(rows[i]) && InMonth(rows[i].publishDate, year, month)
    ensures forall i, j :: |existing| <= i < j < |rows| ==> rows[i].publishDate.day < rows[j].publishDate.day
    ensures forall i :: |existing| <= i < |rows| ==> !HasDate(existing, rows[i].publishDate)
    ensures forall i :: |existing| <= i < |rows| ==> !HasText(rows[..i], rows[i].text)
    ensures UniqueDates(existing) ==> UniqueDates(rows)
    ensures UniqueTexts(existing) ==> UniqueTexts(rows)
    ensures pos <= MaxAttempts * numDays
  {
    RunFromKeepsRunInvariant(readings, year, month, numDays, 1, existing, existing, 0, dryRun);
  }

  /** Why the command stops before the loop, if it does. */
  function OptionsFailure(opts: Options, today: Date): Option<Failure> {
    var year := OrFallback(opts.year, today.year);
    var month := OrFallback(opts.month, today.month);
    if !ApiKeyPresent(opts) then Some(MissingApiKey)
    else if !(1 <= month <= 12) then Some(MonthOutOfRange)
    else if !ValidYear(year) then Some(YearOutOfRange)
    else None
  }

  /**
   * `Command.handle`. The existing table is `existing`; `today` supplies
   * the defaulted year and month.
   */
  method GenerateMonth(opts: Options, today: Date, existing: seq<GeneratedQuote>, fetches: seq<Fetch>)
    returns (o: Outcome)
    ensures o.Failed? <==> OptionsFailure(opts, today).Some?
    ensures o.Failed? ==> o.failure == OptionsFailure(opts, today).value
    ensures o.Done? ==> |existing| <= |o.rows| && o.rows[..|existing|] == existing
    ensures o.Done? ==> o.createdCount == |o.rows| - |existing|
    ensures o.Done? && opts.dryRun ==> o.rows == existing
    ensures o.Done? ==> forall i :: |existing| <= i < |o.rows| ==>
      GeneratedShape(o.rows[i])
      && InMonth(o.rows[i].publishDate, OrFallback(opts.year, today.year), OrFallback(opts.month, today.month))
    ensures o.Done? ==> forall i, j :: |existing| <= i < j < |o.rows| ==> o.rows[i].publishDate.day < o.rows[j].publishDate.day
    ensures o.Done? ==> forall i :: |existing| <= i < |o.rows| ==> !HasDate(existing, o.rows[i].publishDate)
    ensures o.Done? ==> forall i :: |existing| <= i < |o.rows| ==> !HasText(o.rows[..i], o.rows[i].text)
    ensures o.Done? && UniqueDates(existing) ==> UniqueDates(o.rows)
    ensures o.Done? && UniqueTexts(existing) ==> UniqueTexts(o.rows)
    ensures o.Done? ==> o.fetchesUsed <= MaxAttempts * DaysInMonth(OrFallback(opts.year, today.year), OrFallback(opts.month, today.month))
    ensures o.Done? ==>
      var year, month := OrFallback(opts.year, today.year), OrFallback(opts.month, today.month);
      (o.rows, o.fetchesUsed) == RunFrom(Readings(fetches), year, month, DaysInMonth(year, month), 1, existing, 0, opts.dryRun)
  {
    var year := OrFallback(opts.year, today.year);
    var month := OrFallback(opts.month, today.month);
    if !ApiKeyPresent(opts) {
      return Failed(MissingApiKey);
    }
    if !(1 <= month <= 12) {
      return Failed(MonthOutOfRange);
    }
    if !ValidYear(year) {
      return Failed(YearOutOfRange);
    }
    var numDays := DaysInMonth(year, month);
    var readings := Readings(fetches);
    var rows, pos, created := RunMonth(readings, year, month, numDays, existing, opts.dryRun);
    RunOfMonth(readings, year, month, numDays, existing, rows, pos, opts.dryRun);
    return Done(rows, created, pos);
  }

  /** The loop over the days `1..numDays`: the final table, stream position and number of rows created. */
  method RunMonth(readings: seq<Option<Candidate>>, year: int, month: int, numDays: int,
                  existing: seq<GeneratedQuote>, dryRun: bool)
    returns (rows: seq<GeneratedQuote>, pos: nat, created: nat)
    ensures (rows, pos) == RunFrom(readings, year, month, numDays, 1, existing, 0, dryRun)
    ensures |existing| <= |rows| && created == |rows| - |existing|
  {
    ghost var whole := RunFrom(readings, year, month, numDays, 1, existing, 0, dryRun);
    rows, pos, created := existing, 0, 0;
    var day := 1;
    while day <= numDays
      invariant |existing| <= |rows| && created == |rows| - |existing|
      invariant RunFrom(readings, year, month, numDays, day, rows, pos, dryRun) == whole
    {
      var made;
      rows, pos, made := ProcessDay(readings, Date(year, month, day), rows, pos, dryRun);
      if made {
        created := created + 1;
      }
      day := day + 1;
    }
  }

  /**
   * The loop body for one day: outside a dry run a day that already has a
   * quote is skipped; otherwise the day's attempts are spent and, outside a
   * dry run, the accepted record's row is created. `made` reports whether a
   * row was created.
   */
  method ProcessDay(readings: seq<Option<Candidate>>, date: Date, rows: seq<GeneratedQuote>, pos: nat, dryRun: bool)
    returns (rows': seq<GeneratedQuote>, pos': nat, made: bool)
    ensures (rows', pos') == DayStep(readings, date, rows, pos, dryRun)
    ensures made <==> |rows'| == |rows| + 1
    ensures !made ==> rows' == rows
  {
    if !dryRun && HasDate(rows, date) {
      return rows, pos, false;
    }
    var tried := TryCandidates(readings, pos, MaxAttempts, rows, dryRun);
    rows', pos', made := rows, tried.1, false;
    if tried.0.Some? && !dryRun {
      rows' := rows + [NewRow(tried.0.value, date)];
      made := true;
    }
  }

  /**
   * What holds of the table after the days before `day`: the existing rows
   * come first, and each created row has the generated shape, a date of
   * the month before `day` in increasing order that no existing row has, and
   * a text no earlier row has.
   */
  predicate RunInvariant(existing: seq<GeneratedQuote>, rows: seq<GeneratedQuote>, year: int, month: int, day: int) {
    && |existing| <= |rows| && rows[..|existing|] == existing
    && (forall i :: |existing| <= i < |rows| ==>
         GeneratedShape(rows[i]) && InMonth(rows[i].publishDate, year, month) && rows[i].publishDate.day < day)
    && (forall i, j :: |existing| <= i < j < |rows| ==> rows[i].publishDate.day < rows[j].publishDate.day)
    && (forall i :: |existing| <= i < |rows| ==> !HasDate(existing, rows[i].publishDate))
    && (forall i :: |existing| <= i < |rows| ==> !HasText(rows[..i], rows[i].text))
    && (UniqueDates(existing) ==> UniqueDates(rows))
    && (UniqueTexts(existing) ==> UniqueTexts(rows))
  }

  /** Creating the row of `day`, whose date and text are new, carries the run's facts to the next day. */
  lemma AppendKeepsRunInvariant(existing: seq<GeneratedQuote>, rows: seq<GeneratedQuote>, row: GeneratedQuote,
                                year: int, month: int, day: int)
    requires RunInvariant(existing, rows, year, month, day)
    requires 1 <= month <= 12 && 1 <= day <= DaysInMonth(year, month)
    requires row.publishDate == Date(year, month, day) && GeneratedShape(row)
    requires !HasDate(rows, row.publishDate) && !HasText(rows, row.text)
    ensures RunInvariant(existing, rows + [row], year, month, day + 1)
  {
    var rows' := rows + [row];
    AppendRow(existing, rows, row);
    forall i | |existing| <= i < |rows'| ensures !HasText(rows'[..i], rows'[i].text) {
      if i < |rows| {
        assert rows'[..i] == rows[..i];
      } else {
        assert rows'[..i] == rows;
      }
    }
  }

  /** Appending a row whose date and text are not yet in the table keeps the per-row facts of the rows before it. */
  lemma AppendRow(existing: seq<GeneratedQuote>, rows: seq<GeneratedQuote>, row: GeneratedQuote)
    requires |existing| <= |rows| && rows[..|existing|] == existing
    requires !HasDate(rows, row.publishDate) && !HasText(rows, row.text)
    ensures (rows + [row])[..|existing|] == existing
    ensures (rows + [row])[..|rows|] == rows
    ensures !HasDate(existing, row.publishDate)
    ensures UniqueDates(rows) ==> UniqueDates(rows + [row])
    ensures UniqueTexts(rows) ==> UniqueTexts(rows + [row])
  {
    forall i | 0 <= i < |existing| ensures existing[i] == rows[i] {
      assert rows[..|existing|][i] == rows[i];
    }
  }
}
