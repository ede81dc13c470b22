/** The batch job `run()` of scrape-and-upsert.js (lines 15-46): list the
    stocks, scrape each stock's page, and upsert one `stockdetail` row per
    stock keyed by `stock_id`, carrying on past failed upserts. */
module BatchReconciler {
  import opened Wrappers
  import opened LinkNormalizer
  import opened ReportExtractor

  /** A row of the `Stock` table, as the query returns it. */
  datatype Stock = Stock(id: int, name: Option<string>, url: string)

  /** A row of the `stockdetail` table. `title` is the stock's name, not a
      report title. */
  datatype Record = Record(
    stockId: int,
    stockName: Option<string>,
    stockUrl: string,
    title: Option<string>,
    pdfLinks: seq<string>,
    scrapedAt: string,
    updatedAt: string)

  /** The reply `{ data, error }` of `supabase.from('Stock').select('*')`. */
  datatype StockQuery = StockQuery(data: Option<seq<Stock>>, error: Option<string>)

  /** How `run()` ends: by throwing the query error, by returning early, or
      after the loop. */
  datatype RunOutcome = Fatal(error: string) | NoStocks | Completed

  /** What the loop did for one stock: the URL it scraped, how many render
      attempts that took, whether the upsert succeeded, and the delay that
      followed. */
  datatype EntityStep = EntityStep(stockId: int, scrapedUrl: string, renderAttempts: nat, upserted: bool, delayMs: nat)

  const PoliteDelayMs: nat := 800

  /** `reports.map(r => r.link ?? r)`; every report the extractor returns
      has a string `link`, so the `?? r` alternative never applies. */
  function PdfLinks(reports: seq<Report>): (links: seq<string>)
    ensures |links| == |reports|
    ensures forall i :: 0 <= i < |reports| ==> links[i] == reports[i].link
  {
    if reports == [] then [] else [reports[0].link] + PdfLinks(reports[1..])
  }

  /** The payload of lines 28-36. */
  function BuildPayload(stock: Stock, reports: seq<Report>, scrapedAt: string, updatedAt: string): (p: Record)
    ensures p.stockId == stock.id && p.stockName == stock.name && p.stockUrl == stock.url
    ensures p.title == p.stockName
    ensures |p.pdfLinks| == |reports| && forall i :: 0 <= i < |reports| ==> p.pdfLinks[i] == reports[i].link
    ensures p.scrapedAt == scrapedAt && p.updatedAt == updatedAt
  {
    Record(stock.id, stock.name, stock.url, stock.name, PdfLinks(reports), scrapedAt, updatedAt)
  }

  /** The rows the store holds are filed under their own `stock_id`. */
  ghost predicate KeyedById(rows: map<int, Record>)
  {
    forall id :: id in rows ==> rows[id].stockId == id
  }

  /** The effect of one upsert attempt: `None` for a failed one. */
  function Apply(rows: map<int, Record>, w: Option<Record>): (r: map<int, Record>)
    ensures w.None? ==> r == rows
    ensures w.Some? ==> w.value.stockId in r && r[w.value.stockId] == w.value
    ensures w.Some? ==> forall id :: id != w.value.stockId ==>
      (id in r <==> id in rows) && (id in rows ==> r[id] == rows[id])
  {
    match w
    case None => rows
    case Some(r) => rows[r.stockId := r]
  }

  /** The effect of a sequence of upsert attempts, in order. */
  function Reconcile(rows: map<int, Record>, writes: seq<Option<Record>>): (r: map<int, Record>)
    ensures rows.Keys <= r.Keys
  {
    if writes == [] then rows
    else Apply(Reconcile(rows, writes[..|writes| - 1]), writes[|writes| - 1])
  }

  /** The last successful write for `id`, if any. */
  function LastWrite(writes: seq<Option<Record>>, id: int): (r: Option<Record>)
    ensures r.Some? ==> r.value.stockId == id && r in writes
    ensures r.None? ==> forall i :: 0 <= i < |writes| && writes[i].Some? ==> writes[i].value.stockId != id
  {
    if writes == [] then None
    else
      var n := |writes| - 1;
      if writes[n].Some? && writes[n].value.stockId == id then writes[n]
      else
        var r := LastWrite(writes[..n], id);
        assert r.Some? ==> r in writes[..n];
        assert forall i :: 0 <= i < n ==> writes[..n][i] == writes[i];
        r
  }

  /** Last successful write wins; an id nobody wrote keeps its old row, or
      stays absent. */
  lemma {:induction false} LastWriteWins(rows: map<int, Record>, writes: seq<Option<Record>>, id: int)
    ensures LastWrite(writes, id).Some? ==>
      id in Reconcile(rows, writes) && Reconcile(rows, writes)[id] == LastWrite(writes, id).value
    ensures LastWrite(writes, id).None? ==>
      (id in Reconcile(rows, writes) <==> id in rows) &&
      (id in rows ==> Reconcile(rows, writes)[id] == rows[id])
    decreases |writes|
  {
    if writes != [] {
      LastWriteWins(rows, writes[..|writes| - 1], id);
    }
  }

  /** Every upsert keeps the rows filed under their own ids. */
  lemma {:induction false} ReconcileKeyedById(rows: map<int, Record>, writes: seq<Option<Record>>)
    requires KeyedById(rows)
    ensures KeyedById(Reconcile(rows, writes))
    decreases |writes|
  {
    if writes != [] {
      ReconcileKeyedById(rows, writes[..|writes| - 1]);
    }
  }

  /** The ids of the successful writes. */
  function WrittenIds(writes: seq<Option<Record>>): (ids: set<int>)
    ensures forall id :: id in ids <==> LastWrite(writes, id).Some?
  {
    set i | 0 <= i < |writes| && writes[i].Some? :: writes[i].value.stockId
  }

  /** The stored keys are the old keys plus the ids written successfully. */
  lemma ReconcileKeys(rows: map<int, Record>, writes: seq<Option<Record>>)
    ensures Reconcile(rows, writes).Keys == rows.Keys + WrittenIds(writes)
  {
    forall id ensures id in Reconcile(rows, writes) <==> id in rows || id in WrittenIds(writes) {
      LastWriteWins(rows, writes, id);
    }
  }

  /** Replaying the same writes changes nothing: one row per id. */
  lemma RerunIdempotent(rows: map<int, Record>, writes: seq<Option<Record>>)
    ensures Reconcile(Reconcile(rows, writes), writes) == Reconcile(rows, writes)
  {
    var once := Reconcile(rows, writes);
    var twice := Reconcile(once, writes);
    forall id ensures (id in twice <==> id in once) && (id in once ==> twice[id] == once[id]) {
      LastWriteWins(rows, writes, id);
      LastWriteWins(once, writes, id);
    }
  }

  /** Two records that agree on everything but their timestamps. */
  predicate SameContent(a: Record, b: Record)
  {
    a.stockId == b.stockId && a.stockName == b.stockName && a.stockUrl == b.stockUrl &&
    a.title == b.title && a.pdfLinks == b.pdfLinks
  }

  /** Two runs whose writes succeed and fail alike and carry the same content. */
  predicate SameWrites(ws: seq<Option<Record>>, vs: seq<Option<Record>>)
  {
    |ws| == |vs| &&
    forall i :: 0 <= i < |ws| ==> ws[i].Some? == vs[i].Some? && (ws[i].Some? ==> SameContent(ws[i].value, vs[i].value))
  }

  lemma {:induction false} LastWriteSameWrites(ws: seq<Option<Record>>, vs: seq<Option<Record>>, id: int)
    requires SameWrites(ws, vs)
    ensures LastWrite(ws, id).Some? == LastWrite(vs, id).Some?
    ensures LastWrite(ws, id).Some? ==> SameContent(LastWrite(ws, id).value, LastWrite(vs, id).value)
    decreases |ws|
  {
    if ws != [] {
      var n := |ws| - 1;
      assert SameWrites(ws[..n], vs[..n]);
      LastWriteSameWrites(ws[..n], vs[..n], id);
    }
  }

  /** Running the batch again with the same stocks and the same pages keeps
      exactly the rows of the first run, with the same links (only the
      timestamps may change). */
  lemma RerunConverges(rows: map<int, Record>, ws: seq<Option<Record>>, vs: seq<Option<Record>>)
    requires SameWrites(ws, vs)
    ensures Reconcile(Reconcile(rows, ws), vs).Keys == Reconcile(rows, ws).Keys
    ensures forall id :: id in Reconcile(rows, ws) ==>
      SameContent(Reconcile(Reconcile(rows, ws), vs)[id], Reconcile(rows, ws)[id])
  {
    var once := Reconcile(rows, ws);
    var twice := Reconcile(once, vs);
    forall id ensures (id in twice <==> id in once) && (id in once ==> SameContent(twice[id], once[id])) {
      LastWriteWins(rows, ws, id);
      LastWriteWins(once, vs, id);
      LastWriteSameWrites(ws, vs, id);
    }
  }

  /** A second run over the same stocks, extractor results and store
      replies, at other clock readings, converges on the first run's rows. */
  lemma RerunWithNewClock(rows: map<int, Record>, stocks: seq<Stock>, scraped: seq<seq<Report>>,
                          clock1: nat -> string, clock2: nat -> string, upsertFails: nat -> bool)
    requires |scraped| == |stocks|
    ensures
      var first := Reconcile(rows, Writes(stocks, scraped, clock1, upsertFails));
      var second := Reconcile(first, Writes(stocks, scraped, clock2, upsertFails));
      second.Keys == first.Keys && forall id :: id in first ==> SameContent(second[id], first[id])
  {
    var ws, vs := Writes(stocks, scraped, clock1, upsertFails), Writes(stocks, scraped, clock2, upsertFails);
    assert SameWrites(ws, vs) by {
      forall i | 0 <= i < |ws| ensures ws[i].Some? == vs[i].Some? && (ws[i].Some? ==> SameContent(ws[i].value, vs[i].value)) {
        WriteAt(stocks, scraped, clock1, upsertFails, |stocks|, i);
        WriteAt(stocks, scraped, clock2, upsertFails, |stocks|, i);
      }
    }
    RerunConverges(rows, ws, vs);
  }

  /** What the extractor returns for each stock: its page scraped with the
      default single attempt. */
  function Scraped(stocks: seq<Stock>, env: UrlEnv, pages: nat -> int -> AttemptOutcome): (scraped: seq<seq<Report>>)
    ensures |scraped| == |stocks|
  {
    seq(|stocks|, i requires 0 <= i < |stocks| => ScrapeResult(stocks[i].url, 1, pages(i), env))
  }

  /** The upsert attempt for one stock: its payload, or `None` when the
      store reports an error. */
  function WriteFor(stock: Stock, reports: seq<Report>, scrapedAt: string, updatedAt: string, fails: bool): Option<Record>
  {
    if fails then None else Some(BuildPayload(stock, reports, scrapedAt, updatedAt))
  }

  /** The upsert attempts of a run, in list order; the timestamps of the
      stock at position `i` are the clock readings 2i and 2i+1. */
  function Writes(stocks: seq<Stock>, scraped: seq<seq<Report>>, clock: nat -> string, upsertFails: nat -> bool): (ws: seq<Option<Record>>)
    requires |scraped| == |stocks|
    ensures |ws| == |stocks|
  {
    WritesUpTo(stocks, scraped, clock, upsertFails, |stocks|)
  }

  /** The upsert attempts for the first `n` stocks. */
  function WritesUpTo(stocks: seq<Stock>, scraped: seq<seq<Report>>, clock: nat -> string, upsertFails: nat -> bool, n: nat): (ws: seq<Option<Record>>)
    requires n <= |stocks| && n <= |scraped|
    ensures |ws| == n
  {
    if n == 0 then []
    else
      WritesUpTo(stocks, scraped, clock, upsertFails, n - 1) +
      [WriteFor(stocks[n - 1], scraped[n - 1], clock(2 * (n - 1)), clock(2 * (n - 1) + 1), upsertFails(n - 1))]
  }

  /** Position `i` of the run's writes is the upsert attempt for stock `i`. */
  lemma {:induction false} WriteAt(stocks: seq<Stock>, scraped: seq<seq<Report>>, clock: nat -> string, upsertFails: nat -> bool, n: nat, i: nat)
    requires i < n <= |stocks| && n <= |scraped|
    ensures WritesUpTo(stocks, scraped, clock, upsertFails, n)[i] ==
      if upsertFails(i) then None else Some(BuildPayload(stocks[i], scraped[i], clock(2 * i), clock(2 * i + 1)))
    decreases n
  {
    if i < n - 1 {
      WriteAt(stocks, scraped, clock, upsertFails, n - 1, i);
    }
  }

  /** What the loop logs for one stock. */
  function StepFor(stock: Stock, fails: bool): EntityStep
  {
    EntityStep(stock.id, stock.url, 1, !fails, PoliteDelayMs)
  }

  /** The write at position `i` is the last one for its id when no later
      successful write carries that id. */
  lemma {:induction false} LastWriteAt(writes: seq<Option<Record>>, i: nat)
    requires i < |writes| && writes[i].Some?
    requires forall j :: i < j < |writes| && writes[j].Some? ==> writes[j].value.stockId != writes[i].value.stockId
    ensures LastWrite(writes, writes[i].value.stockId) == writes[i]
    decreases |writes|
  {
    var n := |writes| - 1;
    if i < n {
      assert writes[..n][i] == writes[i];
      LastWriteAt(writes[..n], i);
    }
  }

  /** After a run, the row of a stock whose last upsert in the list
      succeeded is exactly the payload built for it. */
  lemma StoredPayload(rows: map<int, Record>, stocks: seq<Stock>, scraped: seq<seq<Report>>, i: nat,
                      clock: nat -> string, upsertFails: nat -> bool)
    requires |scraped| == |stocks|
    requires i < |stocks| && !upsertFails(i)
    requires forall j :: i < j < |stocks| && stocks[j].id == stocks[i].id ==> upsertFails(j)
    ensures
      var after := Reconcile(rows, Writes(stocks, scraped, clock, upsertFails));
      stocks[i].id in after && after[stocks[i].id] == BuildPayload(stocks[i], scraped[i], clock(2 * i), clock(2 * i + 1))
  {
    var ws := Writes(stocks, scraped, clock, upsertFails);
    WriteAt(stocks, scraped, clock, upsertFails, |stocks|, i);
    forall j | i < j < |ws| && ws[j].Some? ensures ws[j].value.stockId != ws[i].value.stockId {
      WriteAt(stocks, scraped, clock, upsertFails, |stocks|, j);
    }
    LastWriteAt(ws, i);
    LastWriteWins(rows, ws, stocks[i].id);
  }

  /** A stock whose upserts all fail keeps its old row, or stays absent;
      the other stocks are processed regardless. */
  lemma FailedUpsertsKeepRow(rows: map<int, Record>, stocks: seq<Stock>, scraped: seq<seq<Report>>, id: int,
                             clock: nat -> string, upsertFails: nat -> bool)
    requires |scraped| == |stocks|
    requires forall i :: 0 <= i < |stocks| && stocks[i].id == id ==> upsertFails(i)
    ensures
      var after := Reconcile(rows, Writes(stocks, scraped, clock, upsertFails));
      (id in after <==> id in rows) && (id in rows ==> after[id] == rows[id])
  {
    var ws := Writes(stocks, scraped, clock, upsertFails);
    forall i | 0 <= i < |ws| && ws[i].Some? ensures ws[i].value.stockId != id {
      WriteAt(stocks, scraped, clock, upsertFails, |stocks|, i);
    }
    LastWriteWins(rows, ws, id);
  }

  /** Processing the stock at position `i` extends the run's writes by one. */
  lemma WritesStep(rows: map<int, Record>, stocks: seq<Stock>, scraped: seq<seq<Report>>, i: nat,
                   clock: nat -> string, upsertFails: nat -> bool, before: map<int, Record>, after: map<int, Record>)
    requires i < |stocks| && |scraped| == |stocks|
    requires before == Reconcile(rows, WritesUpTo(stocks, scraped, clock, upsertFails, i))
    requires after == Apply(before, WriteFor(stocks[i], scraped[i], clock(2 * i), clock(2 * i + 1), upsertFails(i)))
    ensures after == Reconcile(rows, WritesUpTo(stocks, scraped, clock, upsertFails, i + 1))
  {
    var ws := WritesUpTo(stocks, scraped, clock, upsertFails, i + 1);
    assert ws[..i] == WritesUpTo(stocks, scraped, clock, upsertFails, i);
  }

  /** Logging the step for stock `i` extends the log of the first `i` stocks. */
  lemma StepsExtend(stocks: seq<Stock>, upsertFails: nat -> bool, steps: seq<EntityStep>, step: EntityStep, i: nat)
    requires i < |stocks| && |steps| == i
    requires forall k :: 0 <= k < i ==> steps[k] == StepFor(stocks[k], upsertFails(k))
    requires step == StepFor(stocks[i], upsertFails(i))
    ensures forall k :: 0 <= k < i + 1 ==> (steps + [step])[k] == StepFor(stocks[k], upsertFails(k))
  {
  }

  /** The `stockdetail` table. */
  class StockDetailTable {
    var rows: map<int, Record>

    ghost predicate Valid()
      reads this
    {
      KeyedById(rows)
    }

    constructor (initial: map<int, Record>)
      requires KeyedById(initial)
      ensures Valid() && rows == initial
    {
      rows := initial;
    }

    /** `upsert(payload, { onConflict: 'stock_id' })`; `fails` says whether
        the store reports an error for this call. */
    method Upsert(payload: Record, fails: bool) returns (ok: bool)
      requires Valid()
      modifies this
      ensures Valid()
      ensures ok == !fails
      ensures rows == if ok then old(rows)[payload.stockId := payload] else old(rows)
    {
      ok := !fails;
      if ok {
        rows := rows[payload.stockId := payload];
      }
    }
  }

  /** The body of the `try` block (lines 24-42) for one stock: scrape its
      page, build the payload and upsert it; `attempts` is the number of
      render attempts. */
  method ProcessStock(table: StockDetailTable, stock: Stock, env: UrlEnv, page: int -> AttemptOutcome,
                      scrapedAt: string, updatedAt: string, fails: bool)
    returns (ok: bool, ghost reports: seq<Report>, ghost attempts: nat)
    requires table.Valid()
    modifies table
    ensures table.Valid()
    ensures ok == !fails && attempts == 1
    ensures reports == ScrapeResult(stock.url, 1, page, env)
    ensures table.rows == Apply(old(table.rows), WriteFor(stock, reports, scrapedAt, updatedAt, fails))
  {
    var scraped, log := Scrape(stock.url, 1, page, env);
    SingleAttempt(stock.url, page, env);
    reports, attempts := scraped, |log|;
    var payload := BuildPayload(stock, scraped, scrapedAt, updatedAt);
    ok := table.Upsert(payload, fails);
    // a failed upsert is only logged
  }

  /** One iteration of the loop of lines 23-45: the stock at position `i`
      is processed with the clock readings 2i and 2i+1, and the store ends
      up as the first `i + 1` writes of the run leave it. */
  method ProcessNext(table: StockDetailTable, stocks: seq<Stock>, i: nat, env: UrlEnv, pages: nat -> int -> AttemptOutcome,
                     clock: nat -> string, upsertFails: nat -> bool, ghost rows0: map<int, Record>, ghost scraped: seq<seq<Report>>)
    returns (ghost step: EntityStep)
    requires table.Valid() && i < |stocks| && scraped == Scraped(stocks, env, pages)
    requires table.rows == Reconcile(rows0, WritesUpTo(stocks, scraped, clock, upsertFails, i))
    modifies table
    ensures table.Valid()
    ensures table.rows == Reconcile(rows0, WritesUpTo(stocks, scraped, clock, upsertFails, i + 1))
    ensures step == StepFor(stocks[i], upsertFails(i))
  {
    var stock := stocks[i];
    ghost var before := table.rows;
    var ok, reports, attempts := ProcessStock(table, stock, env, pages(i), clock(2 * i), clock(2 * i + 1), upsertFails(i));
    assert reports == scraped[i];
    WritesStep(rows0, stocks, scraped, i, clock, upsertFails, before, table.rows);
    // the polite delay follows every stock, whatever the upsert did
    step := EntityStep(stock.id, stock.url, attempts, ok, PoliteDelayMs);
  }

  /** The `for (const stock of stocks)` loop of lines 23-45. */
  method ProcessAll(table: StockDetailTable, stocks: seq<Stock>, env: UrlEnv, pages: nat -> int -> AttemptOutcome,
                    clock: nat -> string, upsertFails: nat -> bool)
    returns (ghost steps: seq<EntityStep>)
    requires table.Valid()
    modifies table
    ensures table.Valid()
    ensures table.rows == Reconcile(old(table.rows), Writes(stocks, Scraped(stocks, env, pages), clock, upsertFails))
    ensures |steps| == |stocks|
    ensures forall i :: 0 <= i < |stocks| ==>
      steps[i] == StepFor(stocks[i], upsertFails(i))
  {
    ghost var rows0 := table.rows;
    ghost var scraped := Scraped(stocks, env, pages);
    steps := [];
    for i := 0 to |stocks|
      invariant table.Valid()
      invariant table.rows == Reconcile(rows0, WritesUpTo(stocks, scraped, clock, upsertFails, i))
      invariant |steps| == i
      invariant forall k :: 0 <= k < i ==>
        steps[k] == StepFor(stocks[k], upsertFails(k))
    {
      ghost var step := ProcessNext(table, stocks, i, env, pages, clock, upsertFails, rows0, scraped);
      StepsExtend(stocks, upsertFails, steps, step, i);
      steps := steps + [step];
    }
  }

  /** `run()`. `pages(i)` is how the renderer behaves for the i-th stock,
      `clock` the successive readings of the clock and `upsertFails(i)`
      whether the i-th upsert reports an error. */
  method Run(table: StockDetailTable, query: StockQuery, env: UrlEnv, pages: nat -> int -> AttemptOutcome,
             clock: nat -> string, upsertFails: nat -> bool)
    returns (outcome: RunOutcome, ghost steps: seq<EntityStep>)
    requires table.Valid()
    modifies table
    ensures table.Valid()
    ensures query.error.Some? ==>
      outcome == Fatal(query.error.value) && table.rows == old(table.rows) && steps == []
    ensures query.error.None? && (query.data.None? || query.data.value == []) ==>
      outcome == NoStocks && table.rows == old(table.rows) && steps == []
    ensures query.error.None? && query.data.Some? && query.data.value != [] ==>
      var stocks := query.data.value;
      && outcome == Completed
      && table.rows == Reconcile(old(table.rows), Writes(stocks, Scraped(stocks, env, pages), clock, upsertFails))
      && |steps| == |stocks|
      && forall i :: 0 <= i < |stocks| ==>
           steps[i] == StepFor(stocks[i], upsertFails(i))
  {
    if query.error.Some? {
      return Fatal(query.error.value), [];
    }
    if query.data.None? || |query.data.value| == 0 {
      return NoStocks, [];
    }
    steps := ProcessAll(table, query.data.value, env, pages, clock, upsertFails);
    outcome := Completed;
  }
}
