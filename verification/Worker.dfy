/** One worker on one book: claim, resume or search, download, convert, send. */
module Worker {
  import opened Prelude
  import opened BookRows
  import opened Quota
  import opened Router

  /** What `process_one` reports. `Raised` is an exception that leaves it; `NeedsDelivery` is the
      batch-mode sentinel with the finished file and its size. */
  datatype Verdict =
    | SentV | FailedV | NeedsReviewV | SkippedV | InFlightV
    | NeedsDelivery(path: string, size: nat)
    | Raised

  // Everything the outside world decides for one book.

  datatype Search =
    | NoCandidates | SearchCrashed
    | ScoringCrashed | AllHardSkipped | NoPlausibleMatch | LowConfidence | AutoPick

  datatype Download = Duplicate(digest: string) | NoFile | GotFile(path: string, digest: string) | DownloadCrashed

  /** What the suffix of a file says; `Epub` is `.epub` in just this spelling. */
  datatype Format = Unsupported | Convertible | Epub | Pdf | OtherNative

  datatype Conversion = Converted(path: string) | ConversionFailed | ConversionCrashed

  datatype Outside = Outside(
    fileOnDisk: bool,
    pickedRowExists: bool,
    search: Search,
    download: Download,
    formatOf: string -> Format,
    oldFileExists: bool,
    conversion: Conversion,
    sendingCrashed: bool,
    rescuedAs: Option<string>,
    compressedAs: Option<string>,
    tooLargeForSmtp: bool,
    stkConfigured: bool,
    size: nat)

  datatype Settings = Settings(
    maxAttempts: int,
    staleMinutes: int,
    searchRoundsBeforeSkip: int,
    calibre: bool,
    stk: StkConfig,
    smtpCap: int)

  // The discipline every worker keeps towards the shared row.

  /** Claimed, and only written to in ways that keep it in flight. */
  predicate Holding(ws: seq<Write>) {
    && ws != [] && ws[0] == Claim
    && forall i :: 1 <= i < |ws| ==> KeepsInFlight(ws[i])
  }

  /** Claimed, worked on, and handed back by the last write. */
  predicate HandedBack(ws: seq<Write>) {
    && |ws| >= 2 && Holding(ws[..|ws| - 1]) && Settles(ws[|ws| - 1])
  }

  /** What a verdict says about the row. */
  predicate Outcome(v: Verdict, before: Row, after: Row) {
    match v
    case SentV => after.status == Kindled && after.attempts == before.attempts
    case FailedV => after.status == Failed && after.attempts == before.attempts + 1
    case NeedsReviewV => after.status == NeedsReview && after.attempts == before.attempts
    case SkippedV => after.status == Skipped && after.attempts == before.attempts
    case InFlightV => after == before
    case NeedsDelivery(_, _) => InFlight(after.status) && after.attempts == before.attempts
    case Raised => InFlight(after.status) && after.attempts == before.attempts
  }

  predicate Ended(v: Verdict) {
    v in {SentV, FailedV, NeedsReviewV, SkippedV}
  }

  /** The worker's book is at hand and still in flight; `ws` is what the worker has written so far. */
  ghost predicate AtWork(repo: BookRepo, id: BookId, rows0: map<BookId, Row>, trace0: map<BookId, seq<Write>>,
                         ws: seq<Write>)
    reads repo
  {
    && id in rows0
    && id in repo.rows && repo.rows == rows0[id := repo.rows[id]]
    && repo.trace == trace0[id := Earlier(trace0, id) + ws]
    && Holding(ws)
    && InFlight(repo.rows[id].status)
    && repo.rows[id].attempts == rows0[id].attempts
  }

  /** The worker is done with verdict `v`. */
  ghost predicate Done(repo: BookRepo, id: BookId, rows0: map<BookId, Row>, trace0: map<BookId, seq<Write>>,
                       ws: seq<Write>, v: Verdict)
    reads repo
  {
    && id in rows0
    && id in repo.rows && repo.rows == rows0[id := repo.rows[id]]
    && repo.trace == trace0[id := Earlier(trace0, id) + ws]
    && Outcome(v, rows0[id], repo.rows[id])
    && (if Ended(v) then HandedBack(ws) else Holding(ws))
  }

  /** An exception leaves the row the way it is, still in flight. */
  lemma RaisedIsDone(repo: BookRepo, id: BookId, rows0: map<BookId, Row>, trace0: map<BookId, seq<Write>>,
                     ws: seq<Write>)
    requires AtWork(repo, id, rows0, trace0, ws)
    ensures Done(repo, id, rows0, trace0, ws, Raised)
  {
  }

  lemma AtWorkHasRow(repo: BookRepo, id: BookId, rows0: map<BookId, Row>, trace0: map<BookId, seq<Write>>,
                     ws: seq<Write>)
    requires AtWork(repo, id, rows0, trace0, ws)
    ensures id in repo.rows
  {
  }

  /** One UPDATE that keeps the row in flight. */
  method Keep(repo: BookRepo, id: BookId, w: Write,
              ghost rows0: map<BookId, Row>, ghost trace0: map<BookId, seq<Write>>, ghost ws: seq<Write>)
    returns (ghost ws': seq<Write>)
    requires AtWork(repo, id, rows0, trace0, ws) && KeepsInFlight(w)
    modifies repo
    ensures Onward(repo)
    ensures ws' == ws + [w] && AtWork(repo, id, rows0, trace0, ws')
    ensures id in old(repo.rows) && id in repo.rows && repo.rows[id] == Updated(old(repo.rows)[id], w, repo.now)
  {
    repo.Issue(id, w);
    ws' := ws + [w];
    assert Earlier(trace0, id) + ws + [w] == Earlier(trace0, id) + ws';
  }

  /** The UPDATE that ends the worker's part. */
  method Finish(repo: BookRepo, id: BookId, w: Write, v: Verdict,
                ghost rows0: map<BookId, Row>, ghost trace0: map<BookId, seq<Write>>, ghost ws: seq<Write>)
    returns (ghost ws': seq<Write>)
    requires AtWork(repo, id, rows0, trace0, ws)
    requires match v
      case SentV => w.MarkKindled?
      case FailedV => w == SetFailed
      case NeedsReviewV => w.SetStatus? && w.status == NeedsReview
      case SkippedV => w == SetSkipped || w.MarkDedup? || (w.SetStatus? && w.status == Skipped)
      case _ => false
    modifies repo
    ensures Onward(repo)
    ensures ws' == ws + [w] && Done(repo, id, rows0, trace0, ws', v)
    ensures id in old(repo.rows) && id in repo.rows && repo.rows[id] == Updated(old(repo.rows)[id], w, repo.now)
  {
    repo.Issue(id, w);
    ws' := ws + [w];
    assert ws'[..|ws|] == ws;
    assert Earlier(trace0, id) + ws + [w] == Earlier(trace0, id) + ws';
  }

  /** No window of either kind has grown beyond its cap by more than `n - 1`, which is what one check before
      `n` sends allows; nothing is assumed about earlier windows. */
  ghost predicate CapsWithin(before: seq<Event>, after: seq<Event>, cfg: Settings, n: nat) {
    && (cfg.stk.dailyCap.Some? ==> GrowsWithin(before, after, SendStk, cfg.stk.dailyCap.value - 1 + n))
    && (cfg.smtpCap > 0 ==> GrowsWithin(before, after, SendSmtp, cfg.smtpCap - 1 + n))
  }

  /** The caps of deliveries that check one by one. */
  ghost predicate CapsKept(before: seq<Event>, after: seq<Event>, cfg: Settings) {
    CapsWithin(before, after, cfg, 1)
  }

  // Where each path ends, as a decision table. `None` means that the path goes on.

  function FruitlessRound(book: Book, cfg: Settings): Verdict {
    if book.row.attempts + 1 >= cfg.searchRoundsBeforeSkip then SkippedV else FailedV
  }

  function SearchEnd(book: Book, cfg: Settings, o: Outside): Option<Verdict> {
    match o.search
    case SearchCrashed => Some(Raised)
    case NoCandidates => Some(FruitlessRound(book, cfg))
    case ScoringCrashed => Some(Raised)
    case AllHardSkipped => Some(FruitlessRound(book, cfg))
    case NoPlausibleMatch => Some(FruitlessRound(book, cfg))
    case LowConfidence => Some(NeedsReviewV)
    case AutoPick => DownloadEnd(o.download, FailedV)
  }

  function DownloadEnd(d: Download, without: Verdict): Option<Verdict> {
    match d
    case Duplicate(_) => Some(SkippedV)
    case NoFile => Some(without)
    case DownloadCrashed => Some(Raised)
    case GotFile(_, _) => None
  }

  predicate NeedsConversion(cfg: Settings, o: Outside, path: string) {
    o.formatOf(path) == Convertible && cfg.calibre
  }

  /** The conversion is skipped in favour of the file that the snapshot records. */
  predicate Reuses(book: Book, cfg: Settings, o: Outside, path: string) {
    && NeedsConversion(cfg, o, path)
    && book.row.convertedAt.Some? && book.row.filePath.Some? && book.row.filePath.value != ""
    && o.formatOf(book.row.filePath.value) == Epub && o.oldFileExists
  }

  function ConvertEnd(book: Book, cfg: Settings, o: Outside, path: string): Option<Verdict> {
    if !NeedsConversion(cfg, o, path) || Reuses(book, cfg, o, path) then None
    else if o.conversion == ConversionFailed then Some(FailedV)
    else if o.conversion == ConversionCrashed then Some(Raised)
    else None
  }

  function SendingEnd(o: Outside): Option<Verdict> {
    if o.sendingCrashed then Some(Raised)
    else if o.tooLargeForSmtp && !o.stkConfigured then Some(NeedsReviewV)
    else None
  }

  function FileEnd(book: Book, cfg: Settings, o: Outside, path: string): Option<Verdict> {
    if o.formatOf(path) == Unsupported then Some(SkippedV)
    else if ConvertEnd(book, cfg, o, path).Some? then ConvertEnd(book, cfg, o, path)
    else SendingEnd(o)
  }

  // Which file goes to delivery, and which one the row records.

  function AfterConversion(book: Book, cfg: Settings, o: Outside, path: string): string {
    if !NeedsConversion(cfg, o, path) then path
    else if Reuses(book, cfg, o, path) then book.row.filePath.value
    else if o.conversion.Converted? then o.conversion.path
    else path
  }

  function Rescued(o: Outside, path: string): string {
    if o.rescuedAs.Some? && o.formatOf(path) == Pdf then o.rescuedAs.value else path
  }

  function Finished(o: Outside, path: string): string {
    if o.compressedAs.Some? then o.compressedAs.value else Rescued(o, path)
  }

  /** The file that is handed to delivery. */
  function HandedOver(book: Book, cfg: Settings, o: Outside, path: string): string {
    Finished(o, AfterConversion(book, cfg, o, path))
  }

  /** `file_path` follows a conversion, a rescue and a compression, and nothing else. */
  function PathAfterConversion(recorded: Option<string>, book: Book, cfg: Settings, o: Outside, path: string)
    : Option<string>
  {
    if NeedsConversion(cfg, o, path) && !Reuses(book, cfg, o, path) && o.conversion.Converted?
    then Some(o.conversion.path)
    else recorded
  }

  function PathAfterSending(recorded: Option<string>, o: Outside, path: string): Option<string> {
    if o.compressedAs.Some? then o.compressedAs
    else if o.rescuedAs.Some? && o.formatOf(path) == Pdf then o.rescuedAs
    else recorded
  }

  function PathOnRow(recorded: Option<string>, book: Book, cfg: Settings, o: Outside, path: string): Option<string> {
    PathAfterSending(PathAfterConversion(recorded, book, cfg, o, path), o, AfterConversion(book, cfg, o, path))
  }

  /** A resumed book never reuses: its file is the snapshot's, and what needs conversion is no `.epub`. */
  lemma ResumedNeverReuses(book: Book, cfg: Settings, o: Outside)
    requires book.row.filePath.Some?
    ensures !Reuses(book, cfg, o, book.row.filePath.value)
  {
  }

  /** The file handed over is the one on record, unless a fresh download that needs conversion meets an old
      `.epub` of the snapshot: then the old file goes out, and the row records the new one. */
  lemma HandedOverIsRecorded(book: Book, cfg: Settings, o: Outside, path: string)
    requires FileEnd(book, cfg, o, path).None?
    ensures PathOnRow(Some(path), book, cfg, o, path) == Some(HandedOver(book, cfg, o, path))
      <==> !(Reuses(book, cfg, o, path) && o.compressedAs.None?)
    ensures Reuses(book, cfg, o, path) && o.compressedAs.None? ==>
      Some(HandedOver(book, cfg, o, path)) == book.row.filePath && book.row.filePath != Some(path)
  {
  }

  predicate HasPick(book: Book, o: Outside) {
    book.row.picked.Some? && book.row.picked.value != 0 && o.pickedRowExists
  }

  /** How getting hold of a file ends; `None` means that there is one. */
  function FetchEnd(book: Book, cfg: Settings, o: Outside): Option<Verdict> {
    if Resumes(book, o) then None
    else if HasPick(book, o) then DownloadEnd(o.download, FruitlessRound(book, cfg))
    else SearchEnd(book, cfg, o)
  }

  /** The file a claimed book goes on with, if it gets that far. */
  function Fetched(book: Book, o: Outside): string {
    if Resumes(book, o) then book.row.filePath.value
    else if o.download.GotFile? then o.download.path
    else ""
  }

  /** Where a claimed book ends up, or `None` if it reaches delivery. */
  function EndBeforeDelivery(book: Book, cfg: Settings, o: Outside): Option<Verdict> {
    if FetchEnd(book, cfg, o).Some? then FetchEnd(book, cfg, o) else FileEnd(book, cfg, o, Fetched(book, o))
  }

  /** A book that reaches delivery waits for it in batch mode and is sent or fails otherwise. */
  predicate AsDecided(end: Option<Verdict>, o: Outside, handed: string, batchMode: bool, v: Verdict) {
    if end.Some? then v == end.value
    else if batchMode then v == NeedsDelivery(handed, o.size)
    else v in {SentV, FailedV}
  }

  /** `skipped` exactly when this failed round is the last one allowed, counted from the snapshot. */
  method SearchFailOrSkip(repo: BookRepo, book: Book, cfg: Settings,
                          ghost rows0: map<BookId, Row>, ghost trace0: map<BookId, seq<Write>>, ghost ws: seq<Write>)
    returns (v: Verdict, ghost ws': seq<Write>)
    requires AtWork(repo, book.id, rows0, trace0, ws)
    modifies repo
    ensures Onward(repo)
    ensures Done(repo, book.id, rows0, trace0, ws', v)
    ensures v == FruitlessRound(book, cfg)
  {
    if book.row.attempts + 1 >= cfg.searchRoundsBeforeSkip {
      ws' := Finish(repo, book.id, SetSkipped, SkippedV, rows0, trace0, ws);
      return SkippedV, ws';
    }
    ws' := Finish(repo, book.id, SetFailed, FailedV, rows0, trace0, ws);
    v := FailedV;
  }

  /** What `_resolve_and_download` leaves: a file, a parked duplicate, nothing, or an exception. */
  method ResolveAndDownload(repo: BookRepo, id: BookId, d: Download,
                            ghost rows0: map<BookId, Row>, ghost trace0: map<BookId, seq<Write>>, ghost ws: seq<Write>)
    returns (ghost ws': seq<Write>)
    requires AtWork(repo, id, rows0, trace0, ws)
    modifies repo
    ensures Onward(repo)
    ensures if d.Duplicate? then Done(repo, id, rows0, trace0, ws', SkippedV) else AtWork(repo, id, rows0, trace0, ws')
    ensures d.GotFile? ==> GotOnFile(repo.rows, id, d)
    ensures d.Duplicate? ==> repo.rows[id].md5 == Some(d.digest)
  {
    ws' := ws;
    match d
    case Duplicate(digest) =>
      ws' := Finish(repo, id, MarkDedup(digest), SkippedV, rows0, trace0, ws);
    case GotFile(path, digest) =>
      ws' := Keep(repo, id, SetStatus(Downloading, Some(path), Some(digest)), rows0, trace0, ws);
      ws' := Keep(repo, id, MarkStage(DownloadedStage), rows0, trace0, ws');
    case _ =>
  }

  /** The row records a downloaded file, which is what a later attempt resumes from. */
  predicate OnFile(r: Row) {
    r.downloadedAt.Some? && r.filePath.Some?
  }

  predicate GotOnFile(rows: map<BookId, Row>, id: BookId, d: Download) {
    d.GotFile? && id in rows && OnFile(rows[id]) && rows[id].filePath == Some(d.path)
  }

  /** Nothing that a search or a fresh download records has changed, and a recorded file stays recorded. */
  predicate SameSearch(before: map<BookId, Row>, after: map<BookId, Row>, id: BookId) {
    && id in before && id in after
    && after[id].searchedAt == before[id].searchedAt && after[id].md5 == before[id].md5
    && (OnFile(before[id]) ==> OnFile(after[id]))
  }

  /** Convert if needed. Either the book stays at work, or the conversion failed. */
  method ConvertIfNeeded(repo: BookRepo, book: Book, cfg: Settings, o: Outside, path: string,
                         ghost rows0: map<BookId, Row>, ghost trace0: map<BookId, seq<Write>>, ghost ws: seq<Write>)
    returns (v: Option<Verdict>, path': string, ghost ws': seq<Write>)
    requires AtWork(repo, book.id, rows0, trace0, ws)
    modifies repo
    ensures Onward(repo)
    ensures SameSearch(old(repo.rows), repo.rows, book.id)
    ensures v == None ==> AtWork(repo, book.id, rows0, trace0, ws')
    ensures v == None ==> path' == AfterConversion(book, cfg, o, path)
    ensures v == None ==>
      && book.id in old(repo.rows) && book.id in repo.rows
      && repo.rows[book.id].filePath == PathAfterConversion(old(repo.rows)[book.id].filePath, book, cfg, o, path)
    ensures v == ConvertEnd(book, cfg, o, path)
    ensures v.Some? ==> v.value in {FailedV, Raised} && Done(repo, book.id, rows0, trace0, ws', v.value)
  {
    hide AtWork, Done, Accounts;
    AtWorkHasRow(repo, book.id, rows0, trace0, ws);
    v, path', ws' := None, path, ws;
    if o.formatOf(path) == Convertible && cfg.calibre {
      var alreadyConverted :=
        book.row.convertedAt.Some? && book.row.filePath.Some? && book.row.filePath.value != ""
        && o.formatOf(book.row.filePath.value) == Epub && o.oldFileExists;
      if alreadyConverted {
        path' := book.row.filePath.value;
      } else {
        ws' := Keep(repo, book.id, SetStatus(Converting, None, None), rows0, trace0, ws);
        match o.conversion
        case Converted(converted) =>
          path' := converted;
          ws' := Keep(repo, book.id, SetStatus(Converting, Some(path'), None), rows0, trace0, ws');
          ws' := Keep(repo, book.id, MarkStage(ConvertedStage), rows0, trace0, ws');
        case ConversionFailed =>
          ws' := Finish(repo, book.id, SetFailed, FailedV, rows0, trace0, ws');
          v := Some(FailedV);
        case ConversionCrashed =>
          RaisedIsDone(repo, book.id, rows0, trace0, ws');
          v := Some(Raised);
      }
    }
  }

  /** Everything between `sending` and the hand-over to a delivery channel. */
  method Prepare(repo: BookRepo, id: BookId, o: Outside, path: string,
                 ghost rows0: map<BookId, Row>, ghost trace0: map<BookId, seq<Write>>, ghost ws: seq<Write>)
    returns (v: Option<Verdict>, path': string, ghost ws': seq<Write>)
    requires AtWork(repo, id, rows0, trace0, ws)
    modifies repo
    ensures Onward(repo)
    ensures SameSearch(old(repo.rows), repo.rows, id)
    ensures v == None ==> AtWork(repo, id, rows0, trace0, ws')
    ensures v == None ==> path' == Finished(o, path)
    ensures v == None ==>
      && id in old(repo.rows) && id in repo.rows
      && repo.rows[id].filePath == PathAfterSending(old(repo.rows)[id].filePath, o, path)
    ensures v == SendingEnd(o)
    ensures v.Some? ==> v.value in {NeedsReviewV, Raised} && Done(repo, id, rows0, trace0, ws', v.value)
  {
    hide AtWork, Done, Accounts;
    v, path' := None, path;
    ws' := Keep(repo, id, SetStatus(Sending, None, None), rows0, trace0, ws);
    if o.sendingCrashed {
      RaisedIsDone(repo, id, rows0, trace0, ws');
      return Some(Raised), path', ws';
    }
    if o.rescuedAs.Some? && o.formatOf(path) == Pdf {
      path' := o.rescuedAs.value;
      ws' := Keep(repo, id, SetStatus(Downloading, Some(path'), None), rows0, trace0, ws');
    }
    if o.compressedAs.Some? {
      path' := o.compressedAs.value;
      ws' := Keep(repo, id, SetStatus(Downloading, Some(path'), None), rows0, trace0, ws');
    }
    if o.tooLargeForSmtp && !o.stkConfigured {
      ws' := Finish(repo, id, SetStatus(NeedsReview, None, None), NeedsReviewV, rows0, trace0, ws');
      v := Some(NeedsReviewV);
    }
  }

  // The audit of what was sent.

  function NameOf(kind: Kind): string {
    if kind == SendStk then "stk" else "smtp"
  }

  /** How many send events of this kind the log owes to a book: one if the book is kindled by that channel. */
  function Owed(kind: Kind, book: Option<nat>, rows: map<BookId, Row>, ids: set<BookId>): nat {
    if && book.Some? && book.value in ids && book.value in rows
       && rows[book.value].status == Kindled && rows[book.value].sentMethod == Some(NameOf(kind))
    then 1 else 0
  }

  /** Among the entries, the send events are those owed to these books and no others. */
  ghost predicate Audited(entries: seq<Entry>, rows: map<BookId, Row>, ids: set<BookId>) {
    && (forall id :: id in ids && id in rows && rows[id].status == Kindled ==>
          rows[id].sentMethod in {Some("stk"), Some("smtp")})
    && (forall kind, book: Option<nat> :: kind in {SendStk, SendSmtp} ==>
          Count(entries, Entry(kind, book)) == Owed(kind, book, rows, ids))
  }

  /** The log only grew, at its own time, and what it gained passes the audit. */
  ghost predicate Tells(before: seq<Event>, after: seq<Event>, from: int, to: int, rows: map<BookId, Row>,
                        ids: set<BookId>)
  {
    && |before| <= |after|
    && Logged(before, after, Added(before, after), from, to)
    && Audited(Added(before, after), rows, ids)
  }

  /** Each send event stands for an acceptance by its channel, and each SMTP acceptance for an event. So does
      each Send-to-Kindle acceptance, unless a batch session was lost. */
  ghost predicate Backed(before: seq<Event>, after: seq<Event>, stk0: seq<nat>, stk1: seq<nat>,
                         smtp0: seq<nat>, smtp1: seq<nat>, lossy: bool)
  {
    && |before| <= |after| && after[..|before|] == before
    && (forall id :: Count(smtp1, id) == Count(smtp0, id) + Count(Added(before, after), Entry(SendSmtp, Some(id))))
    && (forall id :: Count(stk1, id) >= Count(stk0, id) + Count(Added(before, after), Entry(SendStk, Some(id))))
    && (!lossy ==>
          forall id :: Count(stk1, id) == Count(stk0, id) + Count(Added(before, after), Entry(SendStk, Some(id))))
  }

  lemma NothingToBack(events: seq<Event>, stk: seq<nat>, smtp: seq<nat>)
    ensures Backed(events, events, stk, stk, smtp, smtp, false)
  {
  }

  /** A book that is not kindled owes nothing. */
  lemma NothingOwed(events: seq<Event>, from: int, to: int, rows: map<BookId, Row>, id: BookId)
    requires id in rows && rows[id].status != Kindled
    ensures Tells(events, events, from, to, rows, {id})
  {
    LoggedNone(events, from, to);
  }

  /** What one immediate delivery records, the caller's SMTP event included. */
  function SendEntries(id: BookId, v: Verdict, via: Option<string>, configured: bool): seq<Entry> {
    (if v == SentV && via == Some("stk") then [Entry(SendStk, Some(id))]
     else if configured then [Entry(SendStkFailed, Some(id))]
     else [])
    + (if v == SentV && via == Some("smtp") then [Entry(SendSmtp, Some(id))] else [])
  }

  lemma EntryCount(a: Entry, b: Entry, e: Entry)
    ensures Count([], e) == 0
    ensures Count([a], e) == if a == e then 1 else 0
    ensures Count([a, b], e) == (if a == e then 1 else 0) + if b == e then 1 else 0
  {
    CountSnoc([], a, e);
    CountSnoc([a], b, e);
    assert [] + [a] == [a] && [a] + [b] == [a, b];
  }

  lemma SendIsAudited(id: BookId, v: Verdict, rows: map<BookId, Row>, configured: bool)
    requires id in rows && (rows[id].status == Kindled <==> v == SentV)
    requires v == SentV ==> rows[id].sentMethod in {Some("stk"), Some("smtp")}
    ensures Audited(SendEntries(id, v, rows[id].sentMethod, configured), rows, {id})
  {
    hide Count;
    var entries := SendEntries(id, v, rows[id].sentMethod, configured);
    var failed, smtp, stk := Entry(SendStkFailed, Some(id)), Entry(SendSmtp, Some(id)), Entry(SendStk, Some(id));
    assert entries == (
      if v == SentV && rows[id].sentMethod == Some("stk") then [stk]
      else if v == SentV then if configured then [failed, smtp] else [smtp]
      else if configured then [failed]
      else []);
    forall kind, book: Option<nat> | kind in {SendStk, SendSmtp}
      ensures Count(entries, Entry(kind, book)) == Owed(kind, book, rows, {id})
    {
      EntryCount(failed, smtp, Entry(kind, book));
      EntryCount(stk, smtp, Entry(kind, book));
      EntryCount(smtp, smtp, Entry(kind, book));
    }
  }

  lemma NothingGrows(events: seq<Event>, cfg: Settings)
    ensures CapsKept(events, events, cfg)
  {
  }

  /** An end without a send has nothing to tell. */
  lemma QuietEnd(repo: BookRepo, log: EventLog, cfg: Settings, id: BookId, rows0: map<BookId, Row>,
                 trace0: map<BookId, seq<Write>>, ws: seq<Write>, v: Verdict, from: int)
    requires Done(repo, id, rows0, trace0, ws, v) && v != SentV && v != InFlightV
    ensures Tells(log.events, log.events, from, log.now, repo.rows, {id})
    ensures CapsKept(log.events, log.events, cfg)
  {
    hide Tells, CapsWithin;
    NothingOwed(log.events, from, log.now, repo.rows, id);
    NothingGrows(log.events, cfg);
  }

  lemma WaitingIsDone(repo: BookRepo, id: BookId, rows0: map<BookId, Row>, trace0: map<BookId, seq<Write>>,
                      ws: seq<Write>, v: Verdict)
    requires AtWork(repo, id, rows0, trace0, ws) && v.NeedsDelivery?
    ensures Done(repo, id, rows0, trace0, ws, v)
  {
  }

  /** From a known-good file to the end. In batch mode the finished file is left for the common
      delivery; otherwise it is sent at once, and `SentV` means that exactly one channel accepted it. */
  method ProcessFromDownloaded(repo: BookRepo, net: Channels, log: EventLog, book: Book, path: string,
                               cfg: Settings, o: Outside, batchMode: bool, ghost rows0: map<BookId, Row>,
                               ghost trace0: map<BookId, seq<Write>>, ghost ws: seq<Write>)
    returns (v: Verdict, ghost ws': seq<Write>)
    requires AtWork(repo, book.id, rows0, trace0, ws)
    modifies repo, net, log
    ensures Onward(repo) && log.now >= old(log.now)
    ensures SameSearch(old(repo.rows), repo.rows, book.id)
    ensures Done(repo, book.id, rows0, trace0, ws', v) && v != InFlightV
    ensures AsDecided(FileEnd(book, cfg, o, path), o, HandedOver(book, cfg, o, path), batchMode, v)
    ensures FileEnd(book, cfg, o, path).None? ==>
      && book.id in old(repo.rows) && book.id in repo.rows
      && repo.rows[book.id].filePath == PathOnRow(old(repo.rows)[book.id].filePath, book, cfg, o, path)
    ensures Tells(old(log.events), log.events, old(log.now), log.now, repo.rows, {book.id})
    ensures batchMode ==> v != SentV && log.events == old(log.events)
    ensures !batchMode ==> !v.NeedsDelivery?
    ensures Transferred(old(net.stkAccepted), old(net.smtpAccepted), net.stkAccepted, net.smtpAccepted, book.id, v)
    ensures CapsKept(old(log.events), log.events, cfg)
    ensures Backed(old(log.events), log.events, old(net.stkAccepted), net.stkAccepted,
                   old(net.smtpAccepted), net.smtpAccepted, false)
  {
    NothingToBack(log.events, net.stkAccepted, net.smtpAccepted);
    hide Backed;
    hide AtWork, Done, Tells, PathAfterConversion, PathAfterSending, AfterConversion, Finished, Accounts, CapsWithin;
    AtWorkHasRow(repo, book.id, rows0, trace0, ws);
    if o.formatOf(path) == Unsupported {
      ws' := Finish(repo, book.id, SetStatus(Skipped, None, None), SkippedV, rows0, trace0, ws);
      QuietEnd(repo, log, cfg, book.id, rows0, trace0, ws', SkippedV, old(log.now));
      return SkippedV, ws';
    }
    var early, path';
    early, path', ws' := ConvertIfNeeded(repo, book, cfg, o, path, rows0, trace0, ws);
    if early.Some? {
      QuietEnd(repo, log, cfg, book.id, rows0, trace0, ws', early.value, old(log.now));
      return early.value, ws';
    }
    early, path', ws' := Prepare(repo, book.id, o, path', rows0, trace0, ws');
    if early.Some? {
      QuietEnd(repo, log, cfg, book.id, rows0, trace0, ws', early.value, old(log.now));
      return early.value, ws';
    }
    if batchMode {
      v := NeedsDelivery(path', o.size);
      WaitingIsDone(repo, book.id, rows0, trace0, ws', v);
      QuietEnd(repo, log, cfg, book.id, rows0, trace0, ws', v, old(log.now));
      return;
    }
    v, ws' := SendNow(repo, net, log, book.id, cfg, o, rows0, trace0, ws');
  }

  /** `SentV` exactly when one channel, and only one, accepted the book. */
  ghost predicate Transferred(stk0: seq<nat>, smtp0: seq<nat>, stk1: seq<nat>, smtp1: seq<nat>, id: BookId,
                              v: Verdict) {
    if v == SentV then
      (stk1 == stk0 + [id] && smtp1 == smtp0) || (stk1 == stk0 && smtp1 == smtp0 + [id])
    else
      stk1 == stk0 && smtp1 == smtp0
  }

  lemma CapsChain(a: seq<Event>, b: seq<Event>, c: seq<Event>, cfg: Settings, n: nat)
    requires CapsWithin(a, b, cfg, n) && CapsWithin(b, c, cfg, n)
    ensures CapsWithin(a, c, cfg, n)
  {
    hide GrowsWithin;
    if cfg.stk.dailyCap.Some? {
      GrowsWithinChain(a, b, c, SendStk, cfg.stk.dailyCap.value - 1 + n);
    }
    if cfg.smtpCap > 0 {
      GrowsWithinChain(a, b, c, SendSmtp, cfg.smtpCap - 1 + n);
    }
  }

  /** An SMTP send recorded late is covered by the gate it passed. */
  lemma SmtpRecorded(before: seq<Event>, e: Event, cfg: Settings, checked: int)
    requires e.kind == SendSmtp && e.ts >= checked
    requires GatePassed(before, cfg.smtpCap, checked)
    ensures CapsKept(before, before + [e], cfg)
  {
    hide GrowsWithin, Logged;
    LoggedOne(before, e, e.ts, e.ts);
    LoggedSingle(before, before + [e], Entry(SendSmtp, e.book), e.ts, e.ts);
    if cfg.stk.dailyCap.Some? {
      SameForGrowsWithin(before, before + [e], SendStk, cfg.stk.dailyCap.value - 1 + 1);
    }
    if cfg.smtpCap > 0 {
      LateRecordKeepsCap(before, SendSmtp, cfg.smtpCap, checked, e);
    }
  }

  /** The caller of the router records what SMTP took; Send-to-Kindle has recorded its own. */
  method RecordSmtp(log: EventLog, id: BookId, cfg: Settings, ghost start: seq<Event>, ghost first: seq<Entry>,
                    ghost started: int, ghost sent: int)
    requires Logged(start, log.events, first, started, log.now) && started <= sent <= log.now
    requires GatePassed(log.events, cfg.smtpCap, sent) && CapsKept(start, log.events, cfg)
    modifies log
    ensures log.now >= old(log.now)
    ensures Logged(start, log.events, first + [Entry(SendSmtp, Some(id))], started, log.now)
    ensures CapsKept(start, log.events, cfg)
  {
    hide Logged, CapsWithin, GatePassed;
    ghost var before, moment := log.events, log.now;
    log.Record(SendSmtp, Some(id));
    ghost var e := Event(SendSmtp, Some(id), log.now);
    LoggedOne(before, e, moment, log.now);
    LoggedMore(start, before, log.events, first, [Entry(SendSmtp, Some(id))], started, moment, log.now);
    SmtpRecorded(before, e, cfg, sent);
    CapsChain(start, before, log.events, cfg, 1);
  }

  method SendNow(repo: BookRepo, net: Channels, log: EventLog, id: BookId, cfg: Settings, o: Outside,
                 ghost rows0: map<BookId, Row>, ghost trace0: map<BookId, seq<Write>>, ghost ws: seq<Write>)
    returns (v: Verdict, ghost ws': seq<Write>)
    requires AtWork(repo, id, rows0, trace0, ws)
    modifies repo, net, log
    ensures Onward(repo) && log.now >= old(log.now)
    ensures SameSearch(old(repo.rows), repo.rows, id)
    ensures id in old(repo.rows) && id in repo.rows && repo.rows[id].filePath == old(repo.rows)[id].filePath
    ensures v in {SentV, FailedV} && Done(repo, id, rows0, trace0, ws', v)
    ensures Transferred(old(net.stkAccepted), old(net.smtpAccepted), net.stkAccepted, net.smtpAccepted, id, v)
    ensures v == SentV ==>
      repo.rows[id].sentMethod == Some(if net.stkAccepted != old(net.stkAccepted) then "stk" else "smtp")
    ensures Logged(old(log.events), log.events, SendEntries(id, v, repo.rows[id].sentMethod, o.stkConfigured),
                   old(log.now), log.now)
    ensures Tells(old(log.events), log.events, old(log.now), log.now, repo.rows, {id})
    ensures Backed(old(log.events), log.events, old(net.stkAccepted), net.stkAccepted,
                   old(net.smtpAccepted), net.smtpAccepted, false)
    ensures CapsKept(old(log.events), log.events, cfg)
  {
    hide AtWork, Done, Logged, CapsWithin, RetryHistory, Audited, Accounts, Backed, Tells, SendEntries, DeliveryEntries;
    AtWorkHasRow(repo, id, rows0, trace0, ws);
    ghost var start, started := log.events, log.now;
    var result := Deliver(net, log, id, cfg.stk, cfg.smtpCap, o.stkConfigured);
    DeliveryKeepsCaps(start, log.events, cfg);
    ghost var entries, sent := DeliveryEntries(id, result.means, o.stkConfigured), log.now;
    if result.ok {
      ws' := Finish(repo, id, MarkKindled(if result.means == Stk then "stk" else "smtp"), SentV, rows0, trace0, ws);
      if result.means != Stk {
        RecordSmtp(log, id, cfg, start, entries, started, sent);
      }
      v := SentV;
    } else {
      ws' := Finish(repo, id, SetFailed, FailedV, rows0, trace0, ws);
      v := FailedV;
    }
    assert entries + [] == entries;
    SendIsTold(start, log.events, id, result, o.stkConfigured, started, log.now, repo.rows);
    SendIsBacked(start, log.events, old(net.stkAccepted), net.stkAccepted, old(net.smtpAccepted), net.smtpAccepted,
                 id, v, repo.rows);
  }

  lemma SendIsTold(before: seq<Event>, after: seq<Event>, id: BookId, r: DeliveryResult, configured: bool, from: int,
                   to: int, rows: map<BookId, Row>)
    requires r.means == Stk ==> r.ok && configured
    requires Logged(before, after, DeliveryEntries(id, r.means, configured)
                                   + (if r.ok && r.means != Stk then [Entry(SendSmtp, Some(id))] else []), from, to)
    requires id in rows && (rows[id].status == Kindled <==> r.ok)
    requires r.ok ==> rows[id].sentMethod == Some(if r.means == Stk then "stk" else "smtp")
    ensures var v := if r.ok then SentV else FailedV;
      Logged(before, after, SendEntries(id, v, rows[id].sentMethod, configured), from, to)
    ensures Tells(before, after, from, to, rows, {id})
    ensures |before| <= |after| && after[..|before|] == before && Audited(Added(before, after), rows, {id})
  {
    hide Logged, Audited;
    var v := if r.ok then SentV else FailedV;
    var entries := SendEntries(id, v, rows[id].sentMethod, configured);
    assert entries == DeliveryEntries(id, r.means, configured)
                      + if r.ok && r.means != Stk then [Entry(SendSmtp, Some(id))] else [];
    SendIsAudited(id, v, rows, configured);
    AsAdded(before, after, entries, from, to);
  }

  lemma SendIsBacked(before: seq<Event>, after: seq<Event>, stk0: seq<nat>, stk1: seq<nat>, smtp0: seq<nat>,
                     smtp1: seq<nat>, id: BookId, v: Verdict, rows: map<BookId, Row>)
    requires |before| <= |after| && after[..|before|] == before && Audited(Added(before, after), rows, {id})
    requires id in rows && (rows[id].status == Kindled <==> v == SentV)
    requires Transferred(stk0, smtp0, stk1, smtp1, id, v)
    requires v == SentV ==> rows[id].sentMethod == Some(if stk1 != stk0 then "stk" else "smtp")
    ensures Backed(before, after, stk0, stk1, smtp0, smtp1, false)
  {
    hide Count, Added;
    forall j: nat
      ensures Count(smtp1, j) == Count(smtp0, j) + Count(Added(before, after), Entry(SendSmtp, Some(j)))
      ensures Count(stk1, j) == Count(stk0, j) + Count(Added(before, after), Entry(SendStk, Some(j)))
    {
      CountSnoc(stk0, id, j);
      CountSnoc(smtp0, id, j);
      assert Count(Added(before, after), Entry(SendSmtp, Some(j))) == Owed(SendSmtp, Some(j), rows, {id});
      assert Count(Added(before, after), Entry(SendStk, Some(j))) == Owed(SendStk, Some(j), rows, {id});
    }
  }

  lemma AsAdded(before: seq<Event>, after: seq<Event>, entries: seq<Entry>, from: int, to: int)
    requires Logged(before, after, entries, from, to)
    ensures |before| <= |after| && after[..|before|] == before && Added(before, after) == entries
  {
  }

  lemma DeliveryKeepsCaps(before: seq<Event>, after: seq<Event>, cfg: Settings)
    requires cfg.stk.dailyCap.Some? ==> GrowsWithin(before, after, SendStk, cfg.stk.dailyCap.value)
    requires SameFor(before, after, SendSmtp)
    ensures CapsKept(before, after, cfg)
  {
    hide GrowsWithin, SameFor;
    SameForGrowsWithin(before, after, SendSmtp, cfg.smtpCap - 1 + 1);
  }

  /** The download of the candidate the scoring chose; without a file the book fails. */
  method DownloadChosen(repo: BookRepo, id: BookId, d: Download,
                        ghost rows0: map<BookId, Row>, ghost trace0: map<BookId, seq<Write>>, ghost ws: seq<Write>)
    returns (v: Option<Verdict>, ghost ws': seq<Write>)
    requires AtWork(repo, id, rows0, trace0, ws)
    modifies repo
    ensures Onward(repo)
    ensures v == None ==> AtWork(repo, id, rows0, trace0, ws') && GotOnFile(repo.rows, id, d)
    ensures v == DownloadEnd(d, FailedV)
    ensures v.Some? ==> v.value in {FailedV, SkippedV, Raised} && Done(repo, id, rows0, trace0, ws', v.value)
  {
    hide AtWork, Done, OnFile, Accounts;
    v := None;
    ws' := ResolveAndDownload(repo, id, d, rows0, trace0, ws);
    match d
    case Duplicate(_) => v := Some(SkippedV);
    case DownloadCrashed =>
      RaisedIsDone(repo, id, rows0, trace0, ws');
      v := Some(Raised);
    case NoFile =>
      ws' := Finish(repo, id, SetFailed, FailedV, rows0, trace0, ws');
      v := Some(FailedV);
    case GotFile(_, _) =>
  }

  /** The fresh search, up to a file on disk. */
  method SearchAndDownload(repo: BookRepo, book: Book, cfg: Settings, o: Outside,
                           ghost rows0: map<BookId, Row>, ghost trace0: map<BookId, seq<Write>>, ghost ws: seq<Write>)
    returns (v: Option<Verdict>, ghost ws': seq<Write>)
    requires AtWork(repo, book.id, rows0, trace0, ws)
    modifies repo
    ensures Onward(repo)
    ensures v == None ==> AtWork(repo, book.id, rows0, trace0, ws')
    ensures v.Some? ==>
      v.value in {FailedV, SkippedV, NeedsReviewV, Raised} && Done(repo, book.id, rows0, trace0, ws', v.value)
    ensures v == SearchEnd(book, cfg, o)
    ensures v == None ==> GotOnFile(repo.rows, book.id, o.download)
  {
    hide AtWork, Done, OnFile, Accounts;
    v, ws' := None, ws;
    if o.search == SearchCrashed {
      RaisedIsDone(repo, book.id, rows0, trace0, ws);
      return Some(Raised), ws';
    }
    var verdict;
    if o.search == NoCandidates {
      verdict, ws' := SearchFailOrSkip(repo, book, cfg, rows0, trace0, ws);
      return Some(verdict), ws';
    }
    ws' := Keep(repo, book.id, MarkStage(SearchedStage), rows0, trace0, ws);
    if o.search == ScoringCrashed {
      RaisedIsDone(repo, book.id, rows0, trace0, ws');
      return Some(Raised), ws';
    }
    if o.search == AllHardSkipped || o.search == NoPlausibleMatch {
      verdict, ws' := SearchFailOrSkip(repo, book, cfg, rows0, trace0, ws');
      return Some(verdict), ws';
    }
    if o.search == LowConfidence {
      ws' := Finish(repo, book.id, SetStatus(NeedsReview, None, None), NeedsReviewV, rows0, trace0, ws');
      return Some(NeedsReviewV), ws';
    }
    v, ws' := DownloadChosen(repo, book.id, o.download, rows0, trace0, ws');
  }

  /** The download of a candidate the user picked by hand. */
  method DownloadPicked(repo: BookRepo, book: Book, cfg: Settings, o: Outside,
                        ghost rows0: map<BookId, Row>, ghost trace0: map<BookId, seq<Write>>, ghost ws: seq<Write>)
    returns (v: Option<Verdict>, ghost ws': seq<Write>)
    requires AtWork(repo, book.id, rows0, trace0, ws)
    modifies repo
    ensures Onward(repo)
    ensures v == None ==> AtWork(repo, book.id, rows0, trace0, ws')
    ensures v == DownloadEnd(o.download, FruitlessRound(book, cfg))
    ensures v == None ==> GotOnFile(repo.rows, book.id, o.download)
    ensures v.Some? ==> v.value in {FailedV, SkippedV, Raised} && Done(repo, book.id, rows0, trace0, ws', v.value)
  {
    v := None;
    ws' := ResolveAndDownload(repo, book.id, o.download, rows0, trace0, ws);
    match o.download
    case Duplicate(_) => v := Some(SkippedV);
    case DownloadCrashed => v := Some(Raised);
    case NoFile =>
      var verdict;
      verdict, ws' := SearchFailOrSkip(repo, book, cfg, rows0, trace0, ws');
      v := Some(verdict);
    case GotFile(_, _) =>
  }

  predicate Resumes(book: Book, o: Outside) {
    book.row.downloadedAt.Some? && book.row.filePath.Some? && book.row.filePath.value != "" && o.fileOnDisk
  }

  /** The candidate the user picked, or else the fresh search. */
  method FetchFile(repo: BookRepo, book: Book, cfg: Settings, o: Outside,
                   ghost rows0: map<BookId, Row>, ghost trace0: map<BookId, seq<Write>>, ghost ws: seq<Write>)
    returns (v: Option<Verdict>, ghost ws': seq<Write>)
    requires AtWork(repo, book.id, rows0, trace0, ws) && !Resumes(book, o)
    modifies repo
    ensures Onward(repo)
    ensures v == None ==> AtWork(repo, book.id, rows0, trace0, ws') && GotOnFile(repo.rows, book.id, o.download)
    ensures v == FetchEnd(book, cfg, o)
    ensures v.Some? ==>
      v.value in {FailedV, SkippedV, NeedsReviewV, Raised} && Done(repo, book.id, rows0, trace0, ws', v.value)
  {
    hide AtWork, Done, SearchEnd, DownloadEnd, FruitlessRound, Accounts, GotOnFile;
    if HasPick(book, o) {
      v, ws' := DownloadPicked(repo, book, cfg, o, rows0, trace0, ws);
    } else {
      v, ws' := SearchAndDownload(repo, book, cfg, o, rows0, trace0, ws);
    }
  }

  /** The whole of `process_one`. A book somebody else holds is left alone; otherwise the claim is the
      first write, the last write settles the row the way the verdict says, and a book that was already
      downloaded is neither searched nor downloaded again. A file once fetched stays recorded on the row,
      however conversion and delivery end. */
  method ProcessOne(repo: BookRepo, net: Channels, log: EventLog, book: Book, cfg: Settings, o: Outside,
                    batchMode: bool)
    returns (v: Verdict, ghost ws: seq<Write>)
    modifies repo, net, log
    ensures Onward(repo) && log.now >= old(log.now)
    ensures book.id in old(repo.rows) && Claimable(old(repo.rows)[book.id].status) <==> v != InFlightV
    ensures v == InFlightV ==> repo.rows == old(repo.rows)
    ensures v != InFlightV ==> Done(repo, book.id, old(repo.rows), old(repo.trace), ws, v)
    ensures v != InFlightV ==>
      AsDecided(EndBeforeDelivery(book, cfg, o), o, HandedOver(book, cfg, o, Fetched(book, o)), batchMode, v)
    ensures v != InFlightV && EndBeforeDelivery(book, cfg, o).None? ==>
      && book.id in old(repo.rows) && book.id in repo.rows
      && (var fetched := if Resumes(book, o) then old(repo.rows)[book.id].filePath else Some(Fetched(book, o));
          repo.rows[book.id].filePath == PathOnRow(fetched, book, cfg, o, Fetched(book, o)))
    ensures v != InFlightV && Resumes(book, o) ==> SameSearch(old(repo.rows), repo.rows, book.id)
    ensures v != InFlightV && !Resumes(book, o) && FetchEnd(book, cfg, o).None? ==>
      book.id in repo.rows && OnFile(repo.rows[book.id])
    ensures batchMode ==> v != SentV && log.events == old(log.events)
    ensures !batchMode ==> !v.NeedsDelivery?
    ensures Transferred(old(net.stkAccepted), old(net.smtpAccepted), net.stkAccepted, net.smtpAccepted, book.id, v)
    ensures CapsKept(old(log.events), log.events, cfg)
    ensures v == InFlightV ==> log.events == old(log.events)
    ensures v != InFlightV ==> Tells(old(log.events), log.events, old(log.now), log.now, repo.rows, {book.id})
    ensures Backed(old(log.events), log.events, old(net.stkAccepted), net.stkAccepted,
                   old(net.smtpAccepted), net.smtpAccepted, false)
  {
    NothingToBack(log.events, net.stkAccepted, net.smtpAccepted);
    hide Backed;
    hide Done, FileEnd, SearchEnd, DownloadEnd, FruitlessRound, Tells, PathOnRow, HandedOver, CapsWithin, Accounts;
    hide HasPick;
    ghost var rows0, trace0 := repo.rows, repo.trace;
    ws := [Claim];
    var mine := repo.ClaimForProcessing(book.id);
    if !mine {
      assert repo.rows == rows0;
      NothingGrows(log.events, cfg);
      return InFlightV, ws;
    }
    if book.row.downloadedAt.Some? && book.row.filePath.Some? && book.row.filePath.value != "" {
      if o.fileOnDisk {
        v, ws := ProcessFromDownloaded(repo, net, log, book, book.row.filePath.value, cfg, o, batchMode,
                                       rows0, trace0, ws);
        return;
      }
      ws := Keep(repo, book.id, ClearFrom(DownloadedStage), rows0, trace0, ws);
    }
    var early;
    early, ws := FetchFile(repo, book, cfg, o, rows0, trace0, ws);
    if early.Some? {
      QuietEnd(repo, log, cfg, book.id, rows0, trace0, ws, early.value, old(log.now));
      return early.value, ws;
    }
    v, ws := ProcessFromDownloaded(repo, net, log, book, o.download.path, cfg, o, batchMode, rows0, trace0, ws);
  }
}
