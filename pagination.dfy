/**
 * The pagination loop of scrape: at most MAX_ATTEMPTS attempts to advance
 * the course table.  The browser is replaced by the sequence of what each
 * loop iteration observed.
 */
module Pagination {

  /** The cap on attempts that keeps a stuck next button from looping forever. */
  const MAX_ATTEMPTS: nat := 50

  datatype FaultKind = StaleReference | OtherError

  /** What one iteration of the loop observed. */
  datatype Outcome =
    | NextDisabled    // the page was scraped and the next button is disabled
    | NextEnabled     // the page was scraped and next was clicked
    | Fault(kind: FaultKind, afterScrape: bool)
      // an exception was caught; `afterScrape` when the page's courses had
      // already been added to the accumulator

  /** What a run did: loop iterations entered, the final `attempts`, next
      clicks, the numbers of the pages whose courses were added (page 1 is
      the page shown when the loop starts), and whether it left by `break`. */
  datatype Trace = Trace(iterations: nat, attempts: nat, clicks: nat, pages: seq<nat>, sawDisabled: bool)

  /** The page numbers an iteration added to the accumulator. */
  function Scraped(o: Outcome, page: nat): seq<nat>
  {
    if o.Fault? && !o.afterScrape then [] else [page]
  }

  /** The clicks an iteration that does not break adds. */
  function Clicked(o: Outcome): nat
  {
    if o.NextEnabled? then 1 else 0
  }

  /** The rest of a run of a loop that allows `cap` attempts, from
      observation `n` on page `page`: observation `n` is what iteration `n`
      sees.  The scraper's loop is `Drive`, whose cap is MAX_ATTEMPTS; the
      lemmas that induct over a run keep the cap symbolic. */
  function Run(cap: nat, outcomes: seq<Outcome>, n: nat, page: nat): Trace
    requires n <= cap <= |outcomes|
    decreases cap - n
  {
    if n == cap then Trace(0, 0, 0, [], false)
    else if outcomes[n].NextDisabled? then Trace(1, 0, 0, [page], true)
    else
      var rest := Run(cap, outcomes, n + 1, page + Clicked(outcomes[n]));
      Trace(rest.iterations + 1, rest.attempts + 1, rest.clicks + Clicked(outcomes[n]),
            Scraped(outcomes[n], page) + rest.pages, rest.sawDisabled)
  }

  /** The whole run of the scraper's loop: MAX_ATTEMPTS attempts, starting on page 1. */
  function Drive(outcomes: seq<Outcome>): Trace
    requires MAX_ATTEMPTS <= |outcomes|
  {
    Run(MAX_ATTEMPTS, outcomes, 0, 1)
  }

  /** `whole` is the run made of the iterations done so far followed by `rest`. */
  ghost predicate Joins(whole: Trace, n: nat, attempts: nat, clicks: nat, pages: seq<nat>, rest: Trace)
  {
    && whole.iterations == n + rest.iterations
    && whole.attempts == attempts + rest.attempts
    && whole.clicks == clicks + rest.clicks
    && whole.pages == pages + rest.pages
    && whole.sawDisabled == rest.sawDisabled
  }

  /** An iteration that does not break moves one observation from the rest of
      the run into the part already done. */
  lemma StepJoins(cap: nat, outcomes: seq<Outcome>, whole: Trace, n: nat, clicks: nat, pages: seq<nat>, page: nat)
    requires n < cap <= |outcomes|
    requires !outcomes[n].NextDisabled?
    requires Joins(whole, n, n, clicks, pages, Run(cap, outcomes, n, page))
    ensures Joins(whole, n + 1, n + 1, clicks + Clicked(outcomes[n]), pages + Scraped(outcomes[n], page),
                  Run(cap, outcomes, n + 1, page + Clicked(outcomes[n])))
  {
    var rest := Run(cap, outcomes, n + 1, page + Clicked(outcomes[n]));
    assert pages + (Scraped(outcomes[n], page) + rest.pages) == (pages + Scraped(outcomes[n], page)) + rest.pages;
  }

  /** The iteration that breaks ends the run. */
  lemma StopJoins(cap: nat, outcomes: seq<Outcome>, whole: Trace, n: nat, clicks: nat, pages: seq<nat>, page: nat)
    requires n < cap <= |outcomes|
    requires outcomes[n].NextDisabled?
    requires Joins(whole, n, n, clicks, pages, Run(cap, outcomes, n, page))
    ensures whole == Trace(n + 1, n, clicks, pages + [page], true)
  {
  }

  /** A run that used up its attempts ends there. */
  lemma BudgetJoins(cap: nat, outcomes: seq<Outcome>, whole: Trace, clicks: nat, pages: seq<nat>, page: nat)
    requires cap <= |outcomes|
    requires Joins(whole, cap, cap, clicks, pages, Run(cap, outcomes, cap, page))
    ensures whole == Trace(cap, cap, clicks, pages, false)
  {
    assert pages + [] == pages;
  }

  /** What the loop has accumulated so far: next clicks and the pages whose
      courses were added. */
  datatype Progress = Progress(clicks: nat, pages: seq<nat>)

  /** The accumulation of the first `n` iterations, none of which broke. */
  function Done(outcomes: seq<Outcome>, n: nat): Progress
    requires n <= |outcomes|
  {
    if n == 0 then Progress(0, [])
    else
      var p := Done(outcomes, n - 1);
      Progress(p.clicks + Clicked(outcomes[n - 1]), p.pages + Scraped(outcomes[n - 1], 1 + p.clicks))
  }

  /** After `n` iterations that did not break, the whole run is what they
      accumulated followed by the run from observation `n`. */
  lemma {:induction false} DoneJoinsRun(cap: nat, outcomes: seq<Outcome>, n: nat)
    requires n <= cap <= |outcomes|
    requires forall k :: 0 <= k < n ==> !outcomes[k].NextDisabled?
    ensures Joins(Run(cap, outcomes, 0, 1), n, n, Done(outcomes, n).clicks, Done(outcomes, n).pages,
                  Run(cap, outcomes, n, 1 + Done(outcomes, n).clicks))
  {
    if n == 0 {
      assert [] + Run(cap, outcomes, 0, 1).pages == Run(cap, outcomes, 0, 1).pages;
    } else {
      DoneJoinsRun(cap, outcomes, n - 1);
      var p := Done(outcomes, n - 1);
      StepJoins(cap, outcomes, Run(cap, outcomes, 0, 1), n - 1, p.clicks, p.pages, 1 + p.clicks);
    }
  }

  /** The run that breaks after `n` iterations that did not. */
  lemma RunStopsAt(cap: nat, outcomes: seq<Outcome>, n: nat, clicks: nat, pages: seq<nat>)
    requires n < cap <= |outcomes|
    requires forall k :: 0 <= k < n ==> !outcomes[k].NextDisabled?
    requires outcomes[n].NextDisabled?
    requires Done(outcomes, n) == Progress(clicks, pages)
    ensures Run(cap, outcomes, 0, 1) == Trace(n + 1, n, clicks, pages + [1 + clicks], true)
  {
    DoneJoinsRun(cap, outcomes, n);
    StopJoins(cap, outcomes, Run(cap, outcomes, 0, 1), n, clicks, pages, 1 + clicks);
  }

  /** The run whose `cap` iterations all did not break. */
  lemma RunUsesBudget(cap: nat, outcomes: seq<Outcome>, clicks: nat, pages: seq<nat>)
    requires cap <= |outcomes|
    requires forall k :: 0 <= k < cap ==> !outcomes[k].NextDisabled?
    requires Done(outcomes, cap) == Progress(clicks, pages)
    ensures Run(cap, outcomes, 0, 1) == Trace(cap, cap, clicks, pages, false)
  {
    DoneJoinsRun(cap, outcomes, cap);
    BudgetJoins(cap, outcomes, Run(cap, outcomes, 0, 1), clicks, pages, 1 + clicks);
  }

  /** The whole run, when it breaks after `n` iterations that did not. */
  lemma DriveStopsAt(outcomes: seq<Outcome>, n: nat, clicks: nat, pages: seq<nat>, page: nat)
    requires n < MAX_ATTEMPTS <= |outcomes|
    requires forall k :: 0 <= k < n ==> !outcomes[k].NextDisabled?
    requires outcomes[n].NextDisabled?
    requires Done(outcomes, n) == Progress(clicks, pages) && page == 1 + clicks
    ensures Drive(outcomes) == Trace(n + 1, n, clicks, pages + [page], true)
  {
    RunStopsAt(MAX_ATTEMPTS, outcomes, n, clicks, pages);
  }

  /** The whole run, when none of its MAX_ATTEMPTS iterations broke. */
  lemma DriveUsesBudget(outcomes: seq<Outcome>, clicks: nat, pages: seq<nat>)
    requires MAX_ATTEMPTS <= |outcomes|
    requires forall k :: 0 <= k < MAX_ATTEMPTS ==> !outcomes[k].NextDisabled?
    requires Done(outcomes, MAX_ATTEMPTS) == Progress(clicks, pages)
    ensures Drive(outcomes) == Trace(MAX_ATTEMPTS, MAX_ATTEMPTS, clicks, pages, false)
  {
    RunUsesBudget(MAX_ATTEMPTS, outcomes, clicks, pages);
  }

  /** The loop itself.  The iteration counter `n` is kept apart from
      `attempts`, so that "every iteration that does not break adds exactly
      one attempt" is proved by the loop rather than assumed. */
  method Paginate(outcomes: seq<Outcome>) returns (t: Trace)
    requires |outcomes| >= MAX_ATTEMPTS
    ensures t == Drive(outcomes)
  {
    var n: nat, attempts: nat, clicks: nat, page: nat := 0, 0, 0, 1;
    var pages: seq<nat> := [];
    var disabled := false;
    while attempts < MAX_ATTEMPTS
      invariant n == attempts <= MAX_ATTEMPTS
      invariant page == 1 + clicks
      invariant Done(outcomes, n) == Progress(clicks, pages)
      invariant forall k :: 0 <= k < n ==> !outcomes[k].NextDisabled?
    {
      var observed := outcomes[n];
      match observed
      case NextDisabled =>
        DriveStopsAt(outcomes, n, clicks, pages, page);
        n := n + 1;
        pages := pages + [page];
        disabled := true;
        break;
      case NextEnabled =>
        n := n + 1;
        pages := pages + [page];
        clicks := clicks + 1;
        page := page + 1;
        attempts := attempts + 1;
      case Fault(_, scraped) =>
        n := n + 1;
        if scraped {
          pages := pages + [page];
        }
        attempts := attempts + 1;
    }
    if !disabled {
      DriveUsesBudget(outcomes, clicks, pages);
    }
    t := Trace(n, attempts, clicks, pages, disabled);
  }

  /** The loop's counting: an iteration either breaks, and is the last one,
      or adds exactly one attempt; so a run enters at most the remaining
      attempts' worth of iterations. */
  lemma {:induction false} RunCounts(cap: nat, outcomes: seq<Outcome>, n: nat, page: nat)
    requires n <= cap <= |outcomes|
    ensures Run(cap, outcomes, n, page).iterations == Run(cap, outcomes, n, page).attempts + (if Run(cap, outcomes, n, page).sawDisabled then 1 else 0)
    ensures Run(cap, outcomes, n, page).iterations <= cap - n
    decreases cap - n
  {
    if n < cap && !outcomes[n].NextDisabled? {
      RunCounts(cap, outcomes, n + 1, page + Clicked(outcomes[n]));
    }
  }

  /** A run clicks at most once per attempt and adds at most one page per iteration. */
  lemma {:induction false} RunClicks(cap: nat, outcomes: seq<Outcome>, n: nat, page: nat)
    requires n <= cap <= |outcomes|
    ensures Run(cap, outcomes, n, page).clicks <= Run(cap, outcomes, n, page).attempts
    ensures |Run(cap, outcomes, n, page).pages| <= Run(cap, outcomes, n, page).iterations
    decreases cap - n
  {
    if n < cap && !outcomes[n].NextDisabled? {
      RunClicks(cap, outcomes, n + 1, page + Clicked(outcomes[n]));
    }
  }

  /** The whole loop runs at most MAX_ATTEMPTS iterations, clicks next at most
      MAX_ATTEMPTS times, and has used up every attempt unless it broke. */
  lemma PaginateBounded(outcomes: seq<Outcome>)
    requires MAX_ATTEMPTS <= |outcomes|
    ensures Drive(outcomes).iterations <= MAX_ATTEMPTS
    ensures Drive(outcomes).clicks <= MAX_ATTEMPTS
    ensures Drive(outcomes).iterations == Drive(outcomes).attempts + (if Drive(outcomes).sawDisabled then 1 else 0)
  {
    RunCounts(MAX_ATTEMPTS, outcomes, 0, 1);
    RunClicks(MAX_ATTEMPTS, outcomes, 0, 1);
  }

  /** A run breaks exactly when one of its remaining observations is a
      disabled next button, and then on the first of them. */
  lemma {:induction false} RunStopsOnFirstDisabled(cap: nat, outcomes: seq<Outcome>, n: nat, page: nat)
    requires n <= cap <= |outcomes|
    ensures Run(cap, outcomes, n, page).sawDisabled <==> exists k :: n <= k < cap && outcomes[k].NextDisabled?
    ensures Run(cap, outcomes, n, page).sawDisabled ==>
              1 <= Run(cap, outcomes, n, page).iterations && n + Run(cap, outcomes, n, page).iterations <= cap
    ensures Run(cap, outcomes, n, page).sawDisabled ==>
              n + Run(cap, outcomes, n, page).iterations <= cap && outcomes[n + Run(cap, outcomes, n, page).iterations - 1].NextDisabled?
    ensures Run(cap, outcomes, n, page).sawDisabled ==>
              forall k :: n <= k < n + Run(cap, outcomes, n, page).iterations - 1 ==> !outcomes[k].NextDisabled?
    ensures !Run(cap, outcomes, n, page).sawDisabled ==> Run(cap, outcomes, n, page).iterations == cap - n
    ensures !Run(cap, outcomes, n, page).sawDisabled ==> forall k :: n <= k < cap ==> !outcomes[k].NextDisabled?
    decreases cap - n
  {
    if n < cap && !outcomes[n].NextDisabled? {
      RunStopsOnFirstDisabled(cap, outcomes, n + 1, page + Clicked(outcomes[n]));
    }
  }

  /** `p` is the last page of `pages`. */
  predicate EndsWith(pages: seq<nat>, p: nat)
  {
    |pages| >= 1 && pages[|pages| - 1] == p
  }

  /** The page the loop breaks on has been scraped: it is the last entry of
      the accumulated pages, and it is the page reached by all the clicks. */
  lemma {:induction false} RunScrapesStopPage(cap: nat, outcomes: seq<Outcome>, n: nat, page: nat)
    requires n <= cap <= |outcomes|
    ensures Run(cap, outcomes, n, page).sawDisabled ==>
              EndsWith(Run(cap, outcomes, n, page).pages, page + Run(cap, outcomes, n, page).clicks)
    decreases cap - n
  {
    if n < cap && !outcomes[n].NextDisabled? {
      var dc := Clicked(outcomes[n]);
      var rest := Run(cap, outcomes, n + 1, page + dc);
      RunScrapesStopPage(cap, outcomes, n + 1, page + dc);
      var t := Run(cap, outcomes, n, page);
      if t.sawDisabled {
        assert |t.pages| == |Scraped(outcomes[n], page)| + |rest.pages|;
        assert t.pages[|t.pages| - 1] == rest.pages[|rest.pages| - 1];
      }
    }
  }

  /** Every page added lies between the start page and the page reached by
      all the clicks. */
  lemma {:induction false} RunPagesInRange(cap: nat, outcomes: seq<Outcome>, n: nat, page: nat)
    requires n <= cap <= |outcomes|
    ensures forall i :: 0 <= i < |Run(cap, outcomes, n, page).pages| ==>
              page <= Run(cap, outcomes, n, page).pages[i] <= page + Run(cap, outcomes, n, page).clicks
    decreases cap - n
  {
    if n < cap && !outcomes[n].NextDisabled? {
      var dc := Clicked(outcomes[n]);
      var rest := Run(cap, outcomes, n + 1, page + dc);
      RunPagesInRange(cap, outcomes, n + 1, page + dc);
      var pre := Scraped(outcomes[n], page);
      var t := Run(cap, outcomes, n, page);
      assert t.clicks == rest.clicks + dc && |t.pages| == |pre| + |rest.pages|;
      forall i | 0 <= i < |t.pages|
        ensures page <= t.pages[i] <= page + t.clicks
      {
        if i < |pre| {
          assert t.pages[i] == pre[i] == page;
        } else {
          assert t.pages[i] == rest.pages[i - |pre|];
        }
      }
    }
  }

  /** Pages are added in the order they are reached. */
  lemma {:induction false} RunPagesInOrder(cap: nat, outcomes: seq<Outcome>, n: nat, page: nat)
    requires n <= cap <= |outcomes|
    ensures forall i, j :: 0 <= i < j < |Run(cap, outcomes, n, page).pages| ==>
              Run(cap, outcomes, n, page).pages[i] <= Run(cap, outcomes, n, page).pages[j]
    decreases cap - n
  {
    if n < cap && !outcomes[n].NextDisabled? {
      var dc := Clicked(outcomes[n]);
      var rest := Run(cap, outcomes, n + 1, page + dc);
      RunPagesInOrder(cap, outcomes, n + 1, page + dc);
      RunPagesInRange(cap, outcomes, n + 1, page + dc);
      var pre := Scraped(outcomes[n], page);
      var t := Run(cap, outcomes, n, page);
      assert |t.pages| == |pre| + |rest.pages|;
      forall i, j | 0 <= i < j < |t.pages|
        ensures t.pages[i] <= t.pages[j]
      {
        assert t.pages[j] == rest.pages[j - |pre|];
        if i < |pre| {
          assert t.pages[i] == pre[i] == page;
        } else {
          assert t.pages[i] == rest.pages[i - |pre|];
        }
      }
    }
  }

  /** Two clicks and a disabled button: three pages, scraped once each. */
  lemma DisabledOnThirdPage(outcomes: seq<Outcome>)
    requires MAX_ATTEMPTS <= |outcomes|
    requires outcomes[0] == NextEnabled && outcomes[1] == NextEnabled && outcomes[2] == NextDisabled
    ensures Drive(outcomes) == Trace(3, 2, 2, [1, 2, 3], true)
  {
    assert Run(MAX_ATTEMPTS, outcomes, 2, 3) == Trace(1, 0, 0, [3], true);
    assert Run(MAX_ATTEMPTS, outcomes, 1, 2) == Trace(2, 1, 1, [2, 3], true);
  }

  /** A fault after the page's courses were added, then a retry that finds
      the button disabled: the same page's courses are added twice. */
  lemma LateFaultScrapesPageTwice(outcomes: seq<Outcome>, kind: FaultKind)
    requires MAX_ATTEMPTS <= |outcomes|
    requires outcomes[0] == Fault(kind, true) && outcomes[1] == NextDisabled
    ensures Drive(outcomes) == Trace(2, 1, 0, [1, 1], true)
  {
    assert Run(MAX_ATTEMPTS, outcomes, 1, 1) == Trace(1, 0, 0, [1], true);
  }

  /** Faults before any scraping on every attempt: every attempt is used and nothing is added. */
  lemma {:induction false} EarlyFaultsAddNothing(cap: nat, outcomes: seq<Outcome>, n: nat, page: nat)
    requires n <= cap <= |outcomes|
    requires forall k :: n <= k < cap ==> outcomes[k].Fault? && !outcomes[k].afterScrape
    ensures Run(cap, outcomes, n, page) == Trace(cap - n, cap - n, 0, [], false)
    decreases cap - n
  {
    if n < cap {
      EarlyFaultsAddNothing(cap, outcomes, n + 1, page);
    }
  }
}
