/** The control rules of the two network-facing operations of main.py: the page loop of
    `Parser.save_pages`, which stops at the first page that does not render in time and skips
    a page whose request fails, and the retry counting of `Parser.test_req`. The browser, the
    network and the files are not modelled: each page index, and each attempt, comes with a
    given outcome. */
module Fetch {
  import opened Wrappers

  /** What happens to page `i` of the listing: its source is rendered and written; the wait
      for the film list times out; loading the URL or opening the file raises before the file
      exists; or reading the page source or writing it raises after `open(..., 'w')` has
      created or truncated the file, which then holds only `written`, what reached it before
      the error (empty when reading the source raised). */
  datatype PageOutcome = Rendered(source: string) | TimedOut | Failed | WriteFailed(written: string)

  /** The content a page leaves in its file, when it leaves one. */
  function FileContent(o: PageOutcome): Option<string> {
    match o
    case Rendered(source) => Some(source)
    case WriteFailed(written) => Some(written)
    case _ => None
  }

  /** One saved file `src/page_<index>.html` and the page source written into it. */
  datatype SavedPage = SavedPage(index: int, source: string)

  /** The pages save_pages writes, in order, when it visits the pages from `lo` up to but excluding `hi`. */
  function SavedPages(lo: int, hi: int, outcome: int -> PageOutcome): seq<SavedPage>
    decreases hi - lo
  {
    if lo >= hi then []
    else
      match outcome(lo)
      case TimedOut => []
      case Failed => SavedPages(lo + 1, hi, outcome)
      case Rendered(source) => [SavedPage(lo, source)] + SavedPages(lo + 1, hi, outcome)
      case WriteFailed(written) => [SavedPage(lo, written)] + SavedPages(lo + 1, hi, outcome)
  }

  /** save_pages: the `for i in range(from_page, to_page)` loop, with `break` on a timeout;
      any other error ends just that page, leaving its file when the file was already
      opened. */
  method SavePages(fromPage: int, toPage: int, outcome: int -> PageOutcome) returns (saved: seq<SavedPage>)
    ensures saved == SavedPages(fromPage, toPage, outcome)
  {
    saved := [];
    var i := fromPage;
    while i < toPage
      invariant fromPage <= toPage ==> fromPage <= i <= toPage
      invariant saved + SavedPages(i, toPage, outcome) == SavedPages(fromPage, toPage, outcome)
      decreases toPage - i
    {
      if outcome(i).TimedOut? {
        assert saved + [] == saved;
        break;
      } else if outcome(i).Rendered? {
        saved := saved + [SavedPage(i, outcome(i).source)];
      } else if outcome(i).WriteFailed? {
        saved := saved + [SavedPage(i, outcome(i).written)];
      }
      i := i + 1;
    }
  }

  /** Every saved file lies in `[lo, hi)` and holds what its page left in it: the rendered
      source, or what was written before a write failed; the indices increase strictly. */
  lemma {:induction false} SavedPagesSound(lo: int, hi: int, outcome: int -> PageOutcome)
    ensures forall k :: 0 <= k < |SavedPages(lo, hi, outcome)| ==>
      (var page := SavedPages(lo, hi, outcome)[k];
       lo <= page.index < hi && FileContent(outcome(page.index)) == Some(page.source))
    ensures forall k, l :: 0 <= k < l < |SavedPages(lo, hi, outcome)| ==>
      (SavedPages(lo, hi, outcome)[k].index < SavedPages(lo, hi, outcome)[l].index)
    decreases hi - lo
  {
    if lo < hi && !outcome(lo).TimedOut? {
      SavedPagesSound(lo + 1, hi, outcome);
    }
  }

  /** A page that fails before its file is opened leaves no file. */
  lemma FailedLeavesNoFile(lo: int, hi: int, outcome: int -> PageOutcome, i: int)
    requires outcome(i) == Failed
    ensures forall k :: 0 <= k < |SavedPages(lo, hi, outcome)| ==> SavedPages(lo, hi, outcome)[k].index != i
  {
    SavedPagesSound(lo, hi, outcome);
  }

  /** No page at or after a timed-out index is saved. */
  lemma {:induction false} NothingAfterTimeout(lo: int, hi: int, outcome: int -> PageOutcome, t: int)
    requires lo <= t < hi && outcome(t) == TimedOut
    ensures forall k :: 0 <= k < |SavedPages(lo, hi, outcome)| ==>
      (SavedPages(lo, hi, outcome)[k].index < t)
    decreases hi - lo
  {
    if lo < t && !outcome(lo).TimedOut? {
      NothingAfterTimeout(lo + 1, hi, outcome, t);
    }
  }

  /** A failure ends only its own page: every page that leaves a file before the first
      timeout, a rendered one or one whose write failed, is among the saved files. */
  lemma {:induction false} RenderedBeforeTimeoutIsSaved(lo: int, hi: int, outcome: int -> PageOutcome, i: int)
    requires lo <= i < hi && FileContent(outcome(i)).Some?
    requires forall j :: lo <= j < i ==> !outcome(j).TimedOut?
    ensures SavedPage(i, FileContent(outcome(i)).value) in SavedPages(lo, hi, outcome)
    decreases hi - lo
  {
    if lo < i {
      RenderedBeforeTimeoutIsSaved(lo + 1, hi, outcome, i);
    }
  }

  /** With `from_page = 1` and `to_page = 2`, the defaults, only page 1 is visited. */
  lemma DefaultRange(outcome: int -> PageOutcome)
    ensures SavedPages(1, 2, outcome)
      == if FileContent(outcome(1)).Some? then [SavedPage(1, FileContent(outcome(1)).value)] else []
  {
  }

  /** What one `requests.get` does: return a response with its status code, or raise. */
  datatype Attempt = Answered(status: int) | Raised(error: string)

  /** How test_req ends, with the number of requests made in total: the first response, or
      the last error re-raised once the tries are used up. */
  datatype ReqResult = Response(status: int, attempts: nat) | Failure(error: string, attempts: nat)

  const DefaultTries: nat := 5

  /** test_req: request number `made` (counting from 0) is answered by `attempt(made)`; a
      failure with tries left retries with one try fewer, a failure with none left is
      re-raised. */
  function TestReq(tries: nat, attempt: nat -> Attempt, made: nat): (r: ReqResult)
    ensures made < r.attempts <= made + tries + 1
    decreases tries
  {
    match attempt(made)
    case Answered(status) => Response(status, made + 1)
    case Raised(error) =>
      if tries == 0 then Failure(error, made + 1) else TestReq(tries - 1, attempt, made + 1)
  }

  /** The result is decided by the last request made: a response is what that request
      returned, a failure is its error, raised only after every try was used, and every
      request before the last one raised. */
  lemma {:induction false} TestReqLastAttempt(tries: nat, attempt: nat -> Attempt, made: nat)
    ensures var r := TestReq(tries, attempt, made);
      && (r.Response? ==> attempt(r.attempts - 1) == Answered(r.status))
      && (r.Failure? ==> attempt(r.attempts - 1) == Raised(r.error) && r.attempts == made + tries + 1)
      && (forall k :: made <= k < r.attempts - 1 ==> attempt(k).Raised?)
    decreases tries
  {
    if attempt(made).Raised? && tries > 0 {
      TestReqLastAttempt(tries - 1, attempt, made + 1);
    }
  }

  /** A request that always fails, with `tries = n`, is made exactly n + 1 times and then the
      last error is re-raised. */
  lemma AlwaysFailing(n: nat, attempt: nat -> Attempt)
    requires forall k :: attempt(k).Raised?
    ensures TestReq(n, attempt, 0) == Failure(attempt(n).error, n + 1)
  {
    TestReqLastAttempt(n, attempt, 0);
  }

  /** The first success within the tries is returned, after exactly that many requests. */
  lemma {:induction false} FirstAnswerWins(tries: nat, attempt: nat -> Attempt, made: nat, j: nat)
    requires made <= j <= made + tries && attempt(j).Answered?
    requires forall k :: made <= k < j ==> attempt(k).Raised?
    ensures TestReq(tries, attempt, made) == Response(attempt(j).status, j + 1)
    decreases tries
  {
    if made < j {
      FirstAnswerWins(tries - 1, attempt, made + 1, j);
    }
  }

  /** With the default of 5 tries, at most 6 requests are made. */
  lemma DefaultTriesBound(attempt: nat -> Attempt)
    ensures TestReq(DefaultTries, attempt, 0).attempts <= 6
  {
  }
}
