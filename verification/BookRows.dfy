/** The `books` table: one row per book, changed only by single UPDATE statements. */
module BookRows {
  import opened Prelude

  type BookId = nat

  datatype Status =
    | Queued | Searching | Downloading | Converting | Sending
    | Failed | Skipped | NeedsReview | Sent | Kindled

  datatype Stage = SearchedStage | DownloadedStage | ConvertedStage | SentStage

  datatype Row = Row(
    status: Status,
    attempts: nat,
    createdAt: int,
    updatedAt: int,
    searchedAt: Option<int>,
    downloadedAt: Option<int>,
    convertedAt: Option<int>,
    sentAt: Option<int>,
    filePath: Option<string>,
    md5: Option<string>,
    picked: Option<nat>,
    sentMethod: Option<string>)

  /** A row as a caller of `pending` or `get` holds it: a copy that does not follow later writes. */
  datatype Book = Book(id: BookId, row: Row)

  /** The UPDATE statements a worker issues against one row. */
  datatype Write =
    | Claim
    | SetStatus(status: Status, file: Option<string>, md5: Option<string>)
    | MarkStage(stage: Stage)
    | ClearFrom(stage: Stage)
    | SetFailed
    | SetSkipped
    | MarkDedup(digest: string)
    | MarkKindled(means: string)

  predicate InFlight(s: Status) {
    s in {Searching, Downloading, Converting, Sending}
  }

  predicate Claimable(s: Status) {
    s in {Queued, Failed, NeedsReview}
  }

  predicate IsPending(r: Row, maxAttempts: int) {
    (r.status == Queued || r.status == Failed) && r.attempts < maxAttempts
  }

  /** The four timestamps in pipeline order, `from` and everything after it set to NULL. */
  function ClearedFrom(r: Row, from: Stage): Row {
    match from
    case SearchedStage => r.(searchedAt := None, downloadedAt := None, convertedAt := None, sentAt := None)
    case DownloadedStage => r.(downloadedAt := None, convertedAt := None, sentAt := None)
    case ConvertedStage => r.(convertedAt := None, sentAt := None)
    case SentStage => r.(sentAt := None)
  }

  /** The effect of one UPDATE on the row it matches. */
  function Updated(r: Row, w: Write, now: int): Row {
    match w
    case Claim =>
      if Claimable(r.status) then r.(status := Searching, updatedAt := now) else r
    case SetStatus(s, file, md5) =>
      r.(status := s,
         updatedAt := now,
         filePath := if file.Some? then file else r.filePath,
         md5 := if md5.Some? then md5 else r.md5,
         downloadedAt := if s == Downloading then Some(now) else r.downloadedAt,
         sentAt := if s == Sent then Some(now) else r.sentAt)
    case MarkStage(SearchedStage) => r.(searchedAt := Some(now), updatedAt := now)
    case MarkStage(DownloadedStage) => r.(downloadedAt := Some(now), updatedAt := now)
    case MarkStage(ConvertedStage) => r.(convertedAt := Some(now), updatedAt := now)
    case MarkStage(SentStage) => r.(sentAt := Some(now), updatedAt := now)
    case ClearFrom(stage) => ClearedFrom(r, stage).(updatedAt := now)
    case SetFailed => r.(status := Failed, attempts := r.attempts + 1, updatedAt := now)
    case SetSkipped => r.(status := Skipped, updatedAt := now)
    case MarkDedup(digest) => r.(status := Skipped, md5 := Some(digest), updatedAt := now)
    case MarkKindled(means) =>
      r.(status := Kindled,
         sentMethod := Some(means),
         sentAt := if r.sentAt.Some? then r.sentAt else Some(now),
         updatedAt := now)
  }

  /** An attempt is burnt by `set_failed` alone, and every UPDATE but a claim that matches no row is a write. */
  lemma UpdatedFacts(r: Row, w: Write, now: int)
    ensures Updated(r, w, now).attempts == r.attempts + if w.SetFailed? then 1 else 0
    ensures !w.Claim? || Claimable(r.status) ==> Updated(r, w, now).updatedAt == now
  {
  }

  /** `UPDATE ... WHERE id = ?`: a missing id matches no row. */
  function Perform(rows: map<BookId, Row>, id: BookId, w: Write, now: int): map<BookId, Row> {
    if id in rows then rows[id := Updated(rows[id], w, now)] else rows
  }

  predicate IsStale(r: Row, staleMinutes: int, now: int) {
    InFlight(r.status) && r.updatedAt < now - 60 * staleMinutes
  }

  /** The zombie sweep: every stale in-flight row goes back to the queue. */
  function Sweep(rows: map<BookId, Row>, staleMinutes: int, now: int): map<BookId, Row> {
    map id | id in rows ::
      if IsStale(rows[id], staleMinutes, now)
      then rows[id].(status := Queued, updatedAt := now)
      else rows[id]
  }

  function PendingIds(rows: map<BookId, Row>, maxAttempts: int): set<BookId> {
    set id | id in rows && IsPending(rows[id], maxAttempts)
  }

  /** What `SELECT ... ORDER BY created_at ASC` may return: ties in any order. */
  ghost predicate IsPendingListing(rows: map<BookId, Row>, maxAttempts: int, books: seq<Book>) {
    && (forall i :: 0 <= i < |books| ==> books[i].id in rows && books[i].row == rows[books[i].id])
    && (set i | 0 <= i < |books| :: books[i].id) == PendingIds(rows, maxAttempts)
    && (forall i, j :: 0 <= i < j < |books| ==> books[i].id != books[j].id)
    && (forall i, j :: 0 <= i < j < |books| ==> books[i].row.createdAt <= books[j].row.createdAt)
  }

  // Writes that keep a row with its worker, and writes that hand it back.

  predicate KeepsInFlight(w: Write) {
    || (w.SetStatus? && InFlight(w.status))
    || w.MarkStage?
    || w.ClearFrom?
  }

  predicate Settles(w: Write) {
    || w.SetFailed? || w.SetSkipped? || w.MarkDedup? || w.MarkKindled?
    || (w.SetStatus? && w.status in {Skipped, NeedsReview})
  }

  // The journal of one stretch of time: which UPDATE was issued for which row, and when.

  datatype Issued = Issued(id: BookId, w: Write, at: int)

  /** Rows, the UPDATEs issued per book, and the clock. */
  datatype Image = Image(rows: map<BookId, Row>, trace: map<BookId, seq<Write>>, now: int)

  function Earlier(trace: map<BookId, seq<Write>>, id: BookId): seq<Write> {
    if id in trace then trace[id] else []
  }

  function After(im: Image, e: Issued): Image {
    Image(Perform(im.rows, e.id, e.w, e.at), im.trace[e.id := Earlier(im.trace, e.id) + [e.w]], e.at)
  }

  function Replayed(base: Image, run: seq<Issued>): Image {
    if run == [] then base else After(Replayed(base, run[..|run| - 1]), run[|run| - 1])
  }

  predicate InTime(base: Image, run: seq<Issued>) {
    run == [] ||
    (InTime(base, run[..|run| - 1]) && run[|run| - 1].at >= Replayed(base, run[..|run| - 1]).now)
  }

  /** Starting from `base`, the journal accounts for the whole table and happened before now. */
  ghost predicate Accounts(base: Image, run: seq<Issued>, im: Image) {
    && InTime(base, run)
    && Replayed(base, run).rows == im.rows && Replayed(base, run).trace == im.trace
    && Replayed(base, run).now <= im.now
  }

  lemma AccountsLater(base: Image, run: seq<Issued>, im: Image, later: int)
    requires Accounts(base, run, im) && later >= im.now
    ensures Accounts(base, run, im.(now := later))
  {
  }

  lemma AccountsNext(base: Image, run: seq<Issued>, im: Image, e: Issued)
    requires Accounts(base, run, im) && e.at >= im.now
    ensures Accounts(base, run + [e], After(im, e))
  {
    assert (run + [e])[..|run|] == run;
  }

  lemma OldestExists(rows: map<BookId, Row>, ids: set<BookId>)
    requires ids != {} && ids <= rows.Keys
    ensures exists id :: id in ids && forall j :: j in ids ==> rows[id].createdAt <= rows[j].createdAt
    decreases ids
  {
    var x :| x in ids;
    var rest := ids - {x};
    assert ids == rest + {x};
    if rest == {} {
      assert forall j :: j in ids ==> j == x;
    } else {
      OldestExists(rows, rest);
      var y :| y in rest && forall j :: j in rest ==> rows[y].createdAt <= rows[j].createdAt;
      var oldest := if rows[x].createdAt <= rows[y].createdAt then x else y;
      assert oldest in ids && forall j :: j in ids ==> rows[oldest].createdAt <= rows[j].createdAt;
    }
  }

  /** The repository object. `trace` records, per book, every UPDATE issued for it; `run` is the journal
      since the last sweep, which left the table as `base`. */
  class BookRepo {
    var rows: map<BookId, Row>
    var now: int
    ghost var trace: map<BookId, seq<Write>>
    ghost var base: Image
    ghost var run: seq<Issued>

    ghost function Now(): Image
      reads this
    {
      Image(rows, trace, now)
    }

    ghost predicate Journaled()
      reads this
    {
      Accounts(base, run, Now())
    }

    constructor (initial: map<BookId, Row>, start: int)
      ensures rows == initial && now == start && trace == map[] && run == [] && Journaled()
    {
      rows, now, trace, base, run := initial, start, map[], Image(initial, map[], start), [];
    }

    /** Time passes between two statements. */
    method Elapse()
      modifies this`now
      ensures now >= old(now)
    {
      var later: int :| later >= now;
      now := later;
    }

    /** One UPDATE statement, at some later moment than the last. It matches one row or none, and costs an
        attempt only if it is `set_failed`. */
    method Issue(id: BookId, w: Write)
      modifies this
      ensures Onward(this)
      ensures rows == Perform(old(rows), id, w, now)
      ensures trace == old(trace)[id := Earlier(old(trace), id) + [w]]
      ensures id !in old(rows) ==> rows == old(rows)
      ensures id in old(rows) ==>
        rows.Keys == old(rows).Keys && forall j :: j in rows && j != id ==> rows[j] == old(rows)[j]
      ensures id in old(rows) ==> rows[id].attempts == old(rows)[id].attempts + (if w.SetFailed? then 1 else 0)
      ensures id in old(rows) && !w.Claim? ==> rows[id].updatedAt == now
    {
      hide Updated, Accounts, Replayed, InTime;
      Elapse();
      if old(Journaled()) {
        AccountsLater(base, run, old(Now()), now);
      }
      if id in rows {
        UpdatedFacts(rows[id], w, now);
      }
      ghost var e := Issued(id, w, now);
      if Journaled() {
        AccountsNext(base, run, Now(), e);
      }
      trace := trace[id := Earlier(trace, id) + [w]];
      rows := Perform(rows, id, w, now);
      run := run + [e];
    }

    /** `rowcount == 1` exactly when the row existed and was up for grabs; then its status and its last write
        change and nothing else. */
    method ClaimForProcessing(id: BookId) returns (mine: bool)
      modifies this
      ensures Onward(this)
      ensures mine <==> id in old(rows) && Claimable(old(rows)[id].status)
      ensures mine ==> rows == old(rows)[id := old(rows)[id].(status := Searching, updatedAt := now)]
      ensures !mine ==> rows == old(rows)
      ensures trace == old(trace)[id := Earlier(old(trace), id) + [Claim]]
    {
      mine := id in rows && Claimable(rows[id].status);
      Issue(id, Claim);
    }

    /** Every stale row goes back to the queue with its attempts and stage stamps, and nothing else changes;
        none is stale afterwards. */
    method ResetZombies(staleMinutes: int) returns (swept: nat)
      modifies this
      ensures now >= old(now) && trace == old(trace)
      ensures base == Now() && run == [] && Journaled()
      ensures rows == Sweep(old(rows), staleMinutes, now)
      ensures swept == |set id | id in old(rows) && IsStale(old(rows)[id], staleMinutes, now)|
      ensures rows.Keys == old(rows).Keys
      ensures forall id :: id in rows && !IsStale(old(rows)[id], staleMinutes, now) ==> rows[id] == old(rows)[id]
      ensures forall id :: id in rows && IsStale(old(rows)[id], staleMinutes, now) ==>
        rows[id].status == Queued && rows[id].(status := old(rows)[id].status, updatedAt := old(rows)[id].updatedAt)
                                     == old(rows)[id]
      ensures forall id :: id in rows ==> !IsStale(rows[id], staleMinutes, now)
    {
      Elapse();
      swept := |set id | id in rows && IsStale(rows[id], staleMinutes, now)|;
      rows := Sweep(rows, staleMinutes, now);
      base, run := Now(), [];
    }

    method Pending(maxAttempts: int) returns (books: seq<Book>)
      ensures IsPendingListing(rows, maxAttempts, books)
    {
      hide IsPending;
      books := [];
      var todo := PendingIds(rows, maxAttempts);
      while todo != {}
        invariant todo <= PendingIds(rows, maxAttempts)
        invariant forall i :: 0 <= i < |books| ==> books[i].id in rows && books[i].row == rows[books[i].id]
        invariant (set i | 0 <= i < |books| :: books[i].id) == PendingIds(rows, maxAttempts) - todo
        invariant forall i, j :: 0 <= i < j < |books| ==> books[i].id != books[j].id
        invariant forall i, j :: 0 <= i < j < |books| ==> books[i].row.createdAt <= books[j].row.createdAt
        invariant forall i, id :: 0 <= i < |books| && id in todo ==> books[i].row.createdAt <= rows[id].createdAt
        decreases todo
      {
        OldestExists(rows, todo);
        var id :| id in todo && forall j :: j in todo ==> rows[id].createdAt <= rows[j].createdAt;
        ghost var before := books;
        books := books + [Book(id, rows[id])];
        todo := todo - {id};
        assert (set i | 0 <= i < |books| :: books[i].id) == (set i | 0 <= i < |before| :: before[i].id) + {id} by {
          assert books[|before|].id == id;
          assert forall i :: 0 <= i < |before| ==> books[i] == before[i];
        }
      }
    }
  }

  /** Time goes on, and the journal keeps accounting for what happens. */
  twostate predicate Onward(repo: BookRepo)
    reads repo
  {
    && repo.now >= old(repo.now)
    && repo.base == old(repo.base)
    && (old(repo.Journaled()) ==> repo.Journaled())
  }
}
