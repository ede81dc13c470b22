/** The retry driver of `scrapeReports` (scrapeReports.js, lines 13-98):
    up to `maxRetries` attempts, each of which launches a browser, renders
    the page and extracts the anchors, with a linear back-off between
    failed attempts and an empty result when every attempt fails. */
module ReportExtractor {
  import opened Wrappers
  import opened LinkNormalizer

  /** How one attempt of the renderer turns out; the browser and the page
      are not modelled beyond this.
      LaunchError: `puppeteer.launch` throws, so no browser exists.
      PageError: something after the launch throws (new page, headers,
        navigation, extraction).
      Rendered: the anchors are extracted and the browser closes.
      CloseError: the anchors are extracted but closing the browser throws,
        which the catch handles like any other failure. */
  datatype AttemptOutcome =
    | LaunchError
    | PageError
    | Rendered(anchors: seq<RawAnchor>)
    | CloseError

  /** What one attempt did to the outside world: whether it launched a
      browser, how often it asked the browser to close, and how long it
      slept before the next attempt. */
  datatype AttemptLog = AttemptLog(attempt: int, launched: bool, closeCalls: nat, backoffMs: nat)

  predicate Launched(o: AttemptOutcome)
  {
    !o.LaunchError?
  }

  /** The earliest attempt number in `from..maxRetries` whose render
      succeeds. */
  function FirstSuccess(render: int -> AttemptOutcome, from: int, maxRetries: int): (r: Option<int>)
    ensures r.Some? ==> from <= r.value <= maxRetries && render(r.value).Rendered?
    ensures r.Some? ==> forall j :: from <= j < r.value ==> !render(j).Rendered?
    ensures r.None? ==> forall j :: from <= j <= maxRetries ==> !render(j).Rendered?
    decreases if from <= maxRetries then maxRetries - from + 1 else 0
  {
    if from > maxRetries then None
    else if render(from).Rendered? then Some(from)
    else FirstSuccess(render, from + 1, maxRetries)
  }

  /** What `scrapeReports` returns, stated without the loop: the normalised
      anchors of the first successful attempt, otherwise the empty list. */
  function ScrapeResult(url: string, maxRetries: int, render: int -> AttemptOutcome, env: UrlEnv): (r: seq<Report>)
    ensures maxRetries < 1 ==> r == []
    ensures (forall j :: 1 <= j <= maxRetries ==> !render(j).Rendered?) ==> r == []
    ensures forall j :: 1 <= j <= maxRetries && render(j).Rendered? && (forall i :: 1 <= i < j ==> !render(i).Rendered?) ==>
      r == NormalizeAll(render(j).anchors, url, env)
  {
    match FirstSuccess(render, 1, maxRetries)
    case Some(j) => NormalizeAll(render(j).anchors, url, env)
    case None => []
  }

  /** How many times the renderer is invoked. */
  function AttemptCount(maxRetries: int, render: int -> AttemptOutcome): (n: nat)
    ensures n <= if maxRetries < 1 then 0 else maxRetries
    ensures 0 < n < maxRetries ==> render(n).Rendered?
    ensures forall j :: 1 <= j < n ==> !render(j).Rendered?
    ensures maxRetries >= 1 ==> n >= 1
  {
    match FirstSuccess(render, 1, maxRetries)
    case Some(j) => j
    case None => if maxRetries < 1 then 0 else maxRetries
  }

  /** With the default `maxRetries = 1` the result is that of the single
      attempt. */
  lemma SingleAttempt(url: string, render: int -> AttemptOutcome, env: UrlEnv)
    ensures ScrapeResult(url, 1, render, env) == if render(1).Rendered? then NormalizeAll(render(1).anchors, url, env) else []
    ensures AttemptCount(1, render) == 1
  {
  }

  /** `scrapeReports(url, { maxRetries })`. The ghost log records, per
      attempt, whether a browser was launched, the number of calls to
      `browser.close()` and the back-off that followed. */
  method Scrape(url: string, maxRetries: int, render: int -> AttemptOutcome, env: UrlEnv)
    returns (reports: seq<Report>, ghost log: seq<AttemptLog>)
    ensures reports == ScrapeResult(url, maxRetries, render, env)
    ensures |log| == AttemptCount(maxRetries, render)
    ensures forall i :: 0 <= i < |log| ==> log[i].attempt == i + 1
    ensures forall i :: 0 <= i < |log| ==> log[i].launched == Launched(render(i + 1))
    ensures forall i :: 0 <= i < |log| ==> (log[i].launched <==> log[i].closeCalls >= 1)
    ensures forall i :: 0 <= i < |log| ==>
      log[i].backoffMs == if i + 1 < maxRetries && !render(i + 1).Rendered? then 1000 * (i + 1) else 0
  {
    log := [];
    var browser := false;
    var attempt := 1;
    while attempt <= maxRetries
      invariant 1 <= attempt && (maxRetries >= 1 ==> attempt <= maxRetries) && (maxRetries < 1 ==> attempt == 1)
      invariant |log| == attempt - 1
      invariant forall j :: 1 <= j < attempt ==> !render(j).Rendered?
      invariant forall i :: 0 <= i < |log| ==> log[i].attempt == i + 1 && log[i].backoffMs == 1000 * (i + 1)
      invariant forall i :: 0 <= i < |log| ==> log[i].launched == Launched(render(i + 1))
      invariant forall i :: 0 <= i < |log| ==> (log[i].launched <==> log[i].closeCalls >= 1)
      invariant !browser
      decreases maxRetries - attempt
    {
      var outcome := render(attempt);
      var closeCalls := 0;
      // the try block
      if !outcome.LaunchError? {
        browser := true;
        if outcome.Rendered? {
          var found := NormalizeAll(outcome.anchors, url, env);
          closeCalls := closeCalls + 1;
          log := log + [AttemptLog(attempt, true, closeCalls, 0)];
          assert FirstSuccess(render, 1, maxRetries) == Some(attempt) by {
            FirstSuccessFrom(render, 1, attempt, maxRetries);
          }
          return found, log;
        } else if outcome.CloseError? {
          closeCalls := closeCalls + 1;
        }
      }
      // the catch block
      if browser {
        closeCalls := closeCalls + 1;
        browser := false;
      }
      if attempt == maxRetries {
        log := log + [AttemptLog(attempt, Launched(outcome), closeCalls, 0)];
        return [], log;
      }
      log := log + [AttemptLog(attempt, Launched(outcome), closeCalls, 1000 * attempt)];
      attempt := attempt + 1;
    }
    return [], log;
  }

  /** When every attempt before `j` fails and `j` succeeds, `j` is the first
      success. */
  lemma {:induction false} FirstSuccessFrom(render: int -> AttemptOutcome, from: int, j: int, maxRetries: int)
    requires from <= j <= maxRetries && render(j).Rendered?
    requires forall i :: from <= i < j ==> !render(i).Rendered?
    ensures FirstSuccess(render, from, maxRetries) == Some(j)
    decreases j - from
  {
    if from < j {
      FirstSuccessFrom(render, from + 1, j, maxRetries);
    }
  }
}
