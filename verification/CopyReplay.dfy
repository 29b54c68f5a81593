/** The multi-page part of the job thread: pages are taken from one queue and saved in a second, which is
    swapped in for the next copy (`wprintPage` and `_job_thread` in `lib_wprint.c`). */
module CopyReplay {
  import opened Common

  const MAX_PAGES_PER_JOB: nat := 1000
  const MAX_PATHNAME_LENGTH: nat := 255

  type Uint32 = x: int | 0 <= x < UINT32

  datatype Margins = Margins(top: Uint32, left: Uint32, right: Uint32, bottom: Uint32)

  function WrapAdd(a: Uint32, b: Uint32): Uint32 { (a + b) % UINT32 }

  function WrapSub(a: Uint32, b: Uint32): Uint32 { (a - b + UINT32) % UINT32 }

  function AddMargins(a: Margins, b: Margins): Margins {
    Margins(WrapAdd(a.top, b.top), WrapAdd(a.left, b.left), WrapAdd(a.right, b.right), WrapAdd(a.bottom, b.bottom))
  }

  function SubMargins(a: Margins, b: Margins): Margins {
    Margins(WrapSub(a.top, b.top), WrapSub(a.left, b.left), WrapSub(a.right, b.right), WrapSub(a.bottom, b.bottom))
  }

  lemma MarginsRestored(a: Margins, b: Margins)
    ensures SubMargins(AddMargins(a, b), b) == a
  {
    WrapRestored(a.top, b.top);
    WrapRestored(a.left, b.left);
    WrapRestored(a.right, b.right);
    WrapRestored(a.bottom, b.bottom);
  }

  lemma WrapRestored(a: Uint32, b: Uint32)
    ensures WrapSub(WrapAdd(a, b), b) == a
  {
  }

  datatype Page = Page(file: string, pageNum: int, pdfPage: bool, last: bool, corrupted: bool, margins: Margins)

  /** What the plugin reports for a page; a job in which it reports anything else ends early. */
  datatype Outcome = Ok | Corrupt

  datatype Event =
    | Handled(copy: nat, file: string, pageNum: int, backside: bool, last: bool, corrupted: bool, margins: Margins)
    | BlankSide

  /** A job in print: `outcome(i, k)` is what the plugin reports for page k in copy i. */
  datatype Job = Job(copies: nat, duplex: bool, blanks: bool, pages: seq<Page>, outcome: (nat, nat) -> Outcome)
  {
    /** Only the last message ends the job, and no page has been found corrupt yet. */
    predicate WellQueued() {
      && 0 < |pages| <= MAX_PAGES_PER_JOB
      && forall k | 0 <= k < |pages| :: (pages[k].last <==> k == |pages| - 1) && !pages[k].corrupted
    }

    /** Whether page k was found corrupt in one of the first c copies. */
    predicate CorruptBefore(c: nat, k: nat) {
      c > 0 && (CorruptBefore(c - 1, k) || (k < |pages| && pages[k].file != "" && outcome(c - 1, k) == Corrupt))
    }

    /** The pages as copy c finds them. */
    function PagesAt(c: nat): (r: seq<Page>)
      ensures |r| == |pages|
    {
      seq(|pages|, k requires 0 <= k < |pages| => pages[k].(corrupted := CorruptBefore(c, k)))
    }

    /** Pages that carry a file among the first k. */
    function Count(k: nat): nat
      requires k <= |pages|
    {
      if k == 0 then 0 else Count(k - 1) + (if pages[k - 1].file != "" then 1 else 0)
    }

    /** What printing page k in copy c does. */
    function PageEvents(margins: Margins, c: nat, k: nat): seq<Event>
      requires k < |pages|
    {
      var p := pages[k];
      if p.file == "" then []
      else
        var n := Count(k + 1);
        [Handled(c + 1, p.file, if p.pdfPage then p.pageNum else n, n % 2 == 1, p.last && c + 1 == copies,
                 CorruptBefore(c, k), AddMargins(margins, p.margins))]
        + (if CorruptBefore(c, k) && duplex && blanks then [BlankSide] else [])
    }

    function PagesEvents(margins: Margins, c: nat, k: nat): seq<Event>
      requires k <= |pages|
    {
      if k == 0 then [] else PagesEvents(margins, c, k - 1) + PageEvents(margins, c, k - 1)
    }

    /** Which side the last page with a file is on; without one, the side is the one the job started with. */
    function EndsOnBack(backside: bool, k: nat): bool
      requires k <= |pages|
    {
      if Count(k) == 0 then backside else Count(k) % 2 == 1
    }

    function CopyEvents(margins: Margins, backside: bool, c: nat): seq<Event> {
      PagesEvents(margins, c, |pages|)
      + (if duplex && blanks && EndsOnBack(backside, |pages|) then [BlankSide] else [])
    }

    function Log(margins: Margins, backside: bool, c: nat): seq<Event> {
      if c == 0 then [] else Log(margins, backside, c - 1) + CopyEvents(margins, backside, c - 1)
    }

    /** How many of the first k pages have been found corrupt in the first c copies. */
    function CorruptPages(c: nat, k: nat): nat
      requires k <= |pages|
    {
      if k == 0 then 0 else CorruptPages(c, k - 1) + (if CorruptBefore(c, k - 1) then 1 else 0)
    }
  }

  /** A file named without a directory lies in the job's; `snprintf` cuts off what does not fit. */
  function Complete(directory: string, file: string): (r: string)
    ensures |file| < MAX_PATHNAME_LENGTH ==> |r| < MAX_PATHNAME_LENGTH
    ensures r == "" <==> file == ""
  {
    if file == "" || '/' in file then file
    else
      var whole := directory + "/" + file;
      if |whole| < MAX_PATHNAME_LENGTH then whole else whole[..MAX_PATHNAME_LENGTH - 1]
  }

  /** Page k on its way from the queue to the saved messages. */
  lemma NextPage(job: Job, c: nat, k: nat)
    requires job.WellQueued() && k < |job.pages|
    ensures |job.pages| <= MAX_PAGES_PER_JOB
    ensures var q := job.PagesAt(c);
            && |q[k..]| > 0 && q[k..][0] == q[k] && q[k..][1..] == q[k + 1..]
            && q[..k + 1] == q[..k] + [q[k]] && (q[k].last <==> k == |job.pages| - 1)
            && (k == |job.pages| - 1 ==> q[k + 1..] == [] && q[..k + 1] == q)
    ensures job.PagesAt(c)[k].file == job.pages[k].file
  {
    hide Job.CorruptBefore;
  }

  lemma NextSide(job: Job, was: bool, k: nat, page: Page)
    requires k < |job.pages| && page.file == job.pages[k].file
    ensures job.EndsOnBack(was, k + 1)
         == if page.file == "" then job.EndsOnBack(was, k) else job.Count(k + 1) % 2 == 1
  {
  }

  class JobThread {
    const pathname: string
    var pageQ: seq<Page>
    var saveQ: seq<Page>
    var lastPageSeen: bool
    var margins: Margins
    var backside: bool
    var lastPage: bool
    var pageNum: int
    var copyNum: nat
    var corrupted: nat
    var result: Outcome
    var log: seq<Event>

    constructor (path: string, m: Margins)
      ensures pathname == path
      ensures pageQ == [] && saveQ == [] && !lastPageSeen && margins == m && !backside && corrupted == 0 && log == []
      ensures result == Ok
    {
      pathname := path;
      pageQ, saveQ, lastPageSeen, margins, backside, lastPage := [], [], false, m, false, false;
      pageNum, copyNum, corrupted, result, log := 0, 0, 0, Ok, [];
    }

    /** Where a queued page is to be found: a file with a directory under its own name, and one without in the job's
        directory, as far as its name fits. */
    ghost predicate Located(found: string, file: string)
      reads this
    {
      if '/' in file then found == file
      else found <= pathname + "/" + file && |found| == Min(|pathname| + 1 + |file|, MAX_PATHNAME_LENGTH - 1)
    }

    /** `wprintPage`, for a file that exists; no file ends the job. Once a message with `last` was seen, even
        one the full queue turned down, nothing more is taken. */
    method QueuePage(file: string, isFile: bool, num: int, pdf: bool, isLast: bool, m: Margins) returns (ok: bool)
      modifies this`pageQ, this`lastPageSeen
      ensures var last := isLast || !isFile;
              var valid := !old(lastPageSeen) && (!isFile || 0 < |file| < MAX_PATHNAME_LENGTH);
              && lastPageSeen == (old(lastPageSeen) || (valid && last))
              && (ok <==> valid && |old(pageQ)| < MAX_PAGES_PER_JOB)
              && (!ok ==> pageQ == old(pageQ))
              && (ok ==> && |pageQ| == |old(pageQ)| + 1
                         && pageQ == old(pageQ) + [Page(pageQ[|old(pageQ)|].file, num, pdf, last, false, m)]
                         && (if isFile then Located(pageQ[|old(pageQ)|].file, file) else pageQ[|old(pageQ)|].file == ""))
    {
      var filename, last := file, isLast;
      if !isFile {
        filename, last := "", true;
      } else if filename == "" {
        return false;
      }
      ok := false;
      if !lastPageSeen && |filename| < MAX_PATHNAME_LENGTH {
        if last {
          lastPageSeen := true;
        }
        if |pageQ| < MAX_PAGES_PER_JOB {
          pageQ := pageQ + [Page(Complete(pathname, filename), num, pdf, last, false, m)];
          ok := true;
        }
      }
    }

    /** One page message of copy i, up to the saving of it. */
    method PrintPage(job: Job, i: nat, page: Page, perCopy: nat, k: nat) returns (page': Page, perCopy': nat)
      requires k < |job.pages| && page == job.PagesAt(i)[k] && perCopy == job.Count(k) && i < job.copies
      requires lastPage == (page.last && i == job.copies - 1)
      modifies this`margins, this`backside, this`pageNum, this`copyNum, this`corrupted, this`result, this`log
      ensures page' == job.PagesAt(i + 1)[k] && perCopy' == job.Count(k + 1)
      ensures margins == old(margins) && log == old(log) + job.PageEvents(margins, i, k)
      ensures backside == if page.file == "" then old(backside) else job.Count(k + 1) % 2 == 1
      ensures corrupted == old(corrupted) + if job.CorruptBefore(i + 1, k) && !job.CorruptBefore(i, k) then 1 else 0
      ensures result == Corrupt ==> old(result) == Corrupt || job.CorruptBefore(i + 1, k)
      ensures page.file != "" ==> result == if job.CorruptBefore(i + 1, k) then Corrupt else Ok
    {
      page', perCopy' := page, perCopy;
      if |page.file| > 0 {
        perCopy' := perCopy + 1;
        pageNum := if page.pdfPage then page.pageNum else perCopy';
        margins := AddMargins(margins, page.margins);
        copyNum := i + 1;
        backside := perCopy' % 2 == 1;
        log := log + [Handled(copyNum, page.file, pageNum, backside, lastPage, page.corrupted, margins)];
        if !page.corrupted {
          result := job.outcome(i, k);
        } else {
          result := Corrupt;
          if job.duplex && job.blanks {
            log := log + [BlankSide];
          }
        }
        MarginsRestored(old(margins), page.margins);
        margins := SubMargins(margins, page.margins);
        if !page.corrupted {
          page' := page.(corrupted := result == Corrupt);
          corrupted := corrupted + if result == Corrupt then 1 else 0;
        }
      }
    }

    /** The blank side that evens out a duplex copy, the saving of the message and the swap of the queues. */
    method FinishPage(job: Job, i: nat, page: Page, saves: bool)
      requires saves ==> |saveQ| < MAX_PAGES_PER_JOB
      requires saves && page.last && !lastPage ==> pageQ == []
      modifies this`pageQ, this`saveQ, this`result, this`log
      ensures log == old(log) + if page.last && job.duplex && backside && job.blanks then [BlankSide] else []
      ensures var saved := if saves then old(saveQ) + [page] else old(saveQ);
              if saves && page.last && !lastPage then pageQ == saved && saveQ == []
              else pageQ == old(pageQ) && saveQ == saved
      ensures result == if saves then Ok else old(result)
    {
      if page.last && job.duplex && backside && job.blanks {
        log := log + [BlankSide];
      }
      if saves {
        saveQ := saveQ + [page];
        result := Ok;
        if page.last && !lastPage {
          var tmpQ := pageQ;
          pageQ := saveQ;
          while |tmpQ| > 0 {
            tmpQ := tmpQ[1..];
          }
          saveQ := tmpQ;
        }
      }
    }

    /** The next message of copy i. */
    method PrintNext(job: Job, i: nat, k: nat, perCopy: nat, saves: bool, ghost was: bool)
      returns (perCopy': nat, done: bool)
      requires job.WellQueued() && i < job.copies && k < |job.pages| && (saves <==> job.copies > 1)
      requires pageQ == job.PagesAt(i)[k..] && saveQ == (if saves then job.PagesAt(i + 1)[..k] else [])
      requires perCopy == job.Count(k) && backside == job.EndsOnBack(was, k)
      modifies this`pageQ, this`saveQ, this`margins, this`backside, this`lastPage, this`pageNum, this`copyNum,
               this`corrupted, this`result, this`log
      ensures done == (k == |job.pages| - 1) && perCopy' == job.Count(k + 1)
      ensures margins == old(margins) && backside == job.EndsOnBack(was, k + 1)
      ensures log == old(log) + job.PageEvents(margins, i, k)
                     + if done && job.duplex && backside && job.blanks then [BlankSide] else []
      ensures corrupted == old(corrupted) + if job.CorruptBefore(i + 1, k) && !job.CorruptBefore(i, k) then 1 else 0
      ensures result == Corrupt ==> old(result) == Corrupt || job.CorruptBefore(i + 1, k)
      ensures !done ==> pageQ == job.PagesAt(i)[k + 1..] && saveQ == (if saves then job.PagesAt(i + 1)[..k + 1] else [])
      ensures done && i + 1 < job.copies ==> pageQ == job.PagesAt(i + 1) && saveQ == []
    {
      hide *;
      NextPage(job, i, k);
      NextPage(job, i + 1, k);
      NextSide(job, was, k, job.PagesAt(i)[k]);
      var page := pageQ[0];
      pageQ := pageQ[1..];
      lastPage := page.last && i == job.copies - 1;
      page, perCopy' := PrintPage(job, i, page, perCopy, k);
      FinishPage(job, i, page, saves);
      done := page.last;
    }

    /** The pages of copy i. */
    method PrintCopy(job: Job, i: nat, saves: bool)
      requires job.WellQueued() && i < job.copies && (saves <==> job.copies > 1)
      requires pageQ == job.PagesAt(i) && saveQ == [] && corrupted == job.CorruptPages(i, |job.pages|)
      modifies this`pageQ, this`saveQ, this`margins, this`backside, this`lastPage, this`pageNum, this`copyNum,
               this`corrupted, this`result, this`log
      ensures log == old(log) + job.CopyEvents(margins, old(backside), i)
      ensures margins == old(margins) && corrupted == job.CorruptPages(i + 1, |job.pages|)
      ensures backside == job.EndsOnBack(old(backside), |job.pages|)
      ensures result == Corrupt ==> old(result) == Corrupt || corrupted > 0
      ensures i + 1 < job.copies ==> pageQ == job.PagesAt(i + 1) && saveQ == []
    {
      hide *;
      var perCopy, k, done := 0, 0, false;
      ghost var n := |job.pages|;
      CopyStarts(job, margins, backside, i);
      while !done
        invariant 0 <= k <= n && (done <==> k == n)
        invariant perCopy == job.Count(k) && margins == old(margins)
        invariant log == old(log) + (if done then job.CopyEvents(margins, old(backside), i)
                                     else job.PagesEvents(margins, i, k))
        invariant backside == job.EndsOnBack(old(backside), k)
        invariant corrupted == job.CorruptPages(i + 1, k) + job.CorruptPages(i, n) - job.CorruptPages(i, k)
        invariant result == Corrupt ==> old(result) == Corrupt || job.CorruptPages(i + 1, k) > 0
        invariant !done ==> pageQ == job.PagesAt(i)[k..] && saveQ == (if saves then job.PagesAt(i + 1)[..k] else [])
        invariant done && i + 1 < job.copies ==> pageQ == job.PagesAt(i + 1) && saveQ == []
        decreases n - k
      {
        CountStep(job, i, k);
        EventsStep(job, margins, backside, old(backside), i, k);
        perCopy, done := PrintNext(job, i, k, perCopy, saves, old(backside));
        k := k + 1;
      }
    }

    /** Every copy: however the plugin finds the pages, the job prints what `Log` says. */
    method PrintCopies(job: Job)
      requires job.WellQueued()
      requires pageQ == job.pages && saveQ == [] && corrupted == 0 && log == [] && result == Ok
      modifies this
      ensures log == job.Log(margins, old(backside), job.copies) && margins == old(margins)
      ensures corrupted == job.CorruptPages(job.copies, |job.pages|)
      ensures result == Corrupt <==> corrupted > 0
      ensures AllTold(job, margins, job.copies, Handles(log))
      ensures job.copies > 0 ==> Lasts(log) == if job.pages[|job.pages| - 1].file == "" then 0 else 1
    {
      hide *;
      PrintAll(job);
      LogTells(job, margins, old(backside), job.copies);
      LastIsToldOnce(job, margins, old(backside), job.copies);
      if corrupted != 0 {
        result := Corrupt;
      }
    }

    /** The loop over the copies. */
    method PrintAll(job: Job)
      requires job.WellQueued()
      requires pageQ == job.pages && saveQ == [] && corrupted == 0 && log == [] && result == Ok
      modifies this
      ensures log == job.Log(margins, old(backside), job.copies) && margins == old(margins)
      ensures corrupted == job.CorruptPages(job.copies, |job.pages|)
      ensures result == Corrupt ==> corrupted > 0
    {
      NothingCorruptYet(job, |job.pages|);
      var i := 0;
      while i < job.copies
        invariant 0 <= i <= job.copies
        invariant log == job.Log(margins, old(backside), i) && margins == old(margins)
        invariant corrupted == job.CorruptPages(i, |job.pages|)
        invariant result == Corrupt ==> corrupted > 0
        invariant backside == if i == 0 then old(backside) else job.EndsOnBack(old(backside), |job.pages|)
        invariant i < job.copies ==> pageQ == job.PagesAt(i) && saveQ == []
      {
        CorruptMore(job, i, |job.pages|);
        PrintCopy(job, i, job.copies > 1);
        hide Job.CopyEvents;
        i := i + 1;
      }
    }
  }

  lemma {:induction false} NothingCorruptYet(job: Job, k: nat)
    requires job.WellQueued() && k <= |job.pages|
    ensures job.CorruptPages(0, k) == 0 && job.PagesAt(0) == job.pages
  {
    if k > 0 {
      NothingCorruptYet(job, k - 1);
    }
  }

  lemma CopyStarts(job: Job, margins: Margins, backside: bool, i: nat)
    ensures job.Count(0) == 0 && job.PagesEvents(margins, i, 0) == [] && job.EndsOnBack(backside, 0) == backside
    ensures job.CorruptPages(i, 0) == job.CorruptPages(i + 1, 0) == 0
    ensures job.PagesAt(i)[0..] == job.PagesAt(i) && job.PagesAt(i + 1)[..0] == []
    ensures job.WellQueued() ==> |job.pages| > 0
  {
  }

  lemma EventsStep(job: Job, margins: Margins, backside: bool, was: bool, i: nat, k: nat)
    requires k < |job.pages|
    ensures job.PagesEvents(margins, i, k + 1) == job.PagesEvents(margins, i, k) + job.PageEvents(margins, i, k)
    ensures k + 1 == |job.pages| ==>
              job.CopyEvents(margins, was, i)
              == job.PagesEvents(margins, i, k) + job.PageEvents(margins, i, k)
                 + (if job.duplex && job.blanks && job.EndsOnBack(was, k + 1) then [BlankSide] else [])
  {
  }

  lemma CountStep(job: Job, i: nat, k: nat)
    requires k < |job.pages|
    ensures job.CorruptPages(i + 1, k + 1) - job.CorruptPages(i, k + 1)
         == job.CorruptPages(i + 1, k) - job.CorruptPages(i, k)
            + (if job.CorruptBefore(i + 1, k) && !job.CorruptBefore(i, k) then 1 else 0)
    ensures job.CorruptPages(i + 1, k + 1) >= job.CorruptPages(i + 1, k)
    ensures job.CorruptBefore(i + 1, k) ==> job.CorruptPages(i + 1, k + 1) > 0
  {
  }

  lemma {:induction false} CorruptMore(job: Job, c: nat, k: nat)
    requires k <= |job.pages|
    ensures job.CorruptPages(c, k) <= job.CorruptPages(c + 1, k)
  {
    if k > 0 {
      CorruptMore(job, c, k - 1);
    }
  }

  // ----- what the log says about a job -----

  /** What a log tells the plugin, or finds corrupt, in order. */
  function Handles(events: seq<Event>): seq<Event> {
    if events == [] then []
    else
      var e := events[|events| - 1];
      Handles(events[..|events| - 1]) + (if e.Handled? then [e] else [])
  }

  lemma {:induction false} HandlesConcat(a: seq<Event>, b: seq<Event>)
    ensures Handles(a + b) == Handles(a) + Handles(b)
  {
    if b == [] {
      assert a + b == a;
    } else {
      HandlesConcat(a, b[..|b| - 1]);
      assert (a + b)[..|a + b| - 1] == a + b[..|b| - 1];
    }
  }

  lemma HandlesOne(e: Event)
    ensures Handles([e]) == if e.Handled? then [e] else []
    ensures Handles([]) == []
  {
    assert [e][..0] == [];
  }

  /** The event of page k in copy c says which copy it stands in, whether it is the last of the whole job, whether an
      earlier copy found the page corrupt, and the page's number, side and margins. */
  ghost predicate Tells(job: Job, margins: Margins, c: nat, k: nat, e: Event)
    requires k < |job.pages|
  {
    var p, n := job.pages[k], job.Count(k + 1);
    && e.Handled? && e.file == p.file && e.copy == c + 1
    && (e.last <==> p.last && c == job.copies - 1)
    && (e.corrupted <==> exists i: nat :: i < c && job.outcome(i, k) == Corrupt)
    && e.pageNum == (if p.pdfPage then p.pageNum else n) && (e.backside <==> n % 2 == 1)
    && e.margins.top == (margins.top + p.margins.top) % UINT32
    && e.margins.left == (margins.left + p.margins.left) % UINT32
    && e.margins.right == (margins.right + p.margins.right) % UINT32
    && e.margins.bottom == (margins.bottom + p.margins.bottom) % UINT32
  }

  lemma PageTells(job: Job, margins: Margins, c: nat, k: nat)
    requires k < |job.pages|
    ensures var h := Handles(job.PageEvents(margins, c, k));
            if job.pages[k].file == "" then h == [] else |h| == 1 && Tells(job, margins, c, k, h[0])
  {
    var e := job.PageEvents(margins, c, k);
    if job.pages[k].file == "" {
      HandlesOne(BlankSide);
    } else {
      CorruptBeforeMeans(job, c, k);
      HandlesOne(e[0]);
      HandlesOne(BlankSide);
      HandlesConcat([e[0]], [BlankSide]);
      assert e == [e[0]] || e == [e[0]] + [BlankSide];
    }
    hide Job.CorruptBefore, Handles, Job.Count;
  }

  /** The events of the pages with a file among the first n, in order: that of page k comes after those of all pages
      with a file before it. */
  ghost predicate Told(job: Job, margins: Margins, c: nat, n: nat, h: seq<Event>)
    requires n <= |job.pages|
  {
    && |h| == job.Count(n)
    && forall k: nat | k < n && job.pages[k].file != "" ::
         job.Count(k) < |h| && Tells(job, margins, c, k, h[job.Count(k)])
  }

  lemma {:induction false} PagesTell(job: Job, margins: Margins, c: nat, n: nat)
    requires n <= |job.pages|
    ensures Told(job, margins, c, n, Handles(job.PagesEvents(margins, c, n)))
  {
    hide Handles, Tells, Told, Job.PageEvents, Job.Count;
    if n == 0 {
      HandlesOne(BlankSide);
      NothingTold(job, margins, c);
    } else {
      PagesTell(job, margins, c, n - 1);
      HandlesConcat(job.PagesEvents(margins, c, n - 1), job.PageEvents(margins, c, n - 1));
      PageTells(job, margins, c, n - 1);
      ToldMore(job, margins, c, n - 1, Handles(job.PagesEvents(margins, c, n - 1)),
               Handles(job.PageEvents(margins, c, n - 1)));
    }
  }

  lemma NothingTold(job: Job, margins: Margins, c: nat)
    ensures Told(job, margins, c, 0, [])
  {
  }

  lemma ToldMore(job: Job, margins: Margins, c: nat, k: nat, h: seq<Event>, more: seq<Event>)
    requires k < |job.pages| && Told(job, margins, c, k, h)
    requires if job.pages[k].file == "" then more == [] else |more| == 1 && Tells(job, margins, c, k, more[0])
    ensures Told(job, margins, c, k + 1, h + more)
  {
    hide Tells, Job.Count;
    CountPage(job, k);
    forall j: nat | j < k + 1 && job.pages[j].file != ""
      ensures job.Count(j) < |h + more| && Tells(job, margins, c, j, (h + more)[job.Count(j)])
    {
      if j < k {
        assert (h + more)[job.Count(j)] == h[job.Count(j)];
      }
    }
  }

  /** Every copy tells the plugin of every page with a file, in order. */
  lemma CopyTells(job: Job, margins: Margins, backside: bool, c: nat)
    ensures Told(job, margins, c, |job.pages|, Handles(job.CopyEvents(margins, backside, c)))
  {
    hide Handles, Told, Job.PagesEvents, Job.EndsOnBack, Job.Count;
    PagesTell(job, margins, c, |job.pages|);
    var pages := job.PagesEvents(margins, c, |job.pages|);
    HandlesConcat(pages, [BlankSide]);
    HandlesConcat(pages, []);
    HandlesOne(BlankSide);
    assert Handles(pages) + [] == Handles(pages);
  }

  /** The events of c copies: those of copy i come behind those of the copies before it. */
  ghost predicate AllTold(job: Job, margins: Margins, c: nat, h: seq<Event>) {
    var n := job.Count(|job.pages|);
    && |h| == c * n
    && forall i: nat | i < c :: 0 <= i * n <= i * n + n <= |h| && Told(job, margins, i, |job.pages|, h[i * n..i * n + n])
  }

  lemma {:induction false} LogTells(job: Job, margins: Margins, backside: bool, c: nat)
    ensures AllTold(job, margins, c, Handles(job.Log(margins, backside, c)))
  {
    hide Handles, Told, Job.CopyEvents;
    var n := job.Count(|job.pages|);
    if c == 0 {
      HandlesOne(BlankSide);
    } else {
      LogTells(job, margins, backside, c - 1);
      CopyTells(job, margins, backside, c - 1);
      var a, b := Handles(job.Log(margins, backside, c - 1)), Handles(job.CopyEvents(margins, backside, c - 1));
      HandlesConcat(job.Log(margins, backside, c - 1), job.CopyEvents(margins, backside, c - 1));
      ToldLength(job, margins, c - 1, |job.pages|, b);
      PlusOne(c - 1, n);
      forall i: nat | i < c
        ensures 0 <= i * n <= i * n + n <= |a + b| && Told(job, margins, i, |job.pages|, (a + b)[i * n..i * n + n])
      {
        if i == c - 1 {
          LastPart(a, b);
          assert i * n == |a|;
        } else {
          FirstPart(a, b, i * n, i * n + n);
        }
      }
    }
  }

  lemma ToldLength(job: Job, margins: Margins, c: nat, n: nat, h: seq<Event>)
    requires n <= |job.pages| && Told(job, margins, c, n, h)
    ensures |h| == job.Count(n)
  {
  }

  lemma LastPart(a: seq<Event>, b: seq<Event>)
    ensures (a + b)[|a|..|a| + |b|] == b
  {
  }

  lemma FirstPart(a: seq<Event>, b: seq<Event>, i: nat, j: nat)
    requires i <= j <= |a|
    ensures (a + b)[i..j] == a[i..j]
  {
  }

  lemma PlusOne(k: nat, n: nat)
    ensures k * n >= 0 && (k + 1) * n == k * n + n
  {
  }

  /** How often a log says that a page is the last. */
  function Lasts(events: seq<Event>): nat {
    if events == [] then 0
    else
      var e := events[|events| - 1];
      Lasts(events[..|events| - 1]) + (if e.Handled? && e.last then 1 else 0)
  }

  lemma {:induction false} LastsConcat(a: seq<Event>, b: seq<Event>)
    ensures Lasts(a + b) == Lasts(a) + Lasts(b)
  {
    if b == [] {
      assert a + b == a;
    } else {
      LastsConcat(a, b[..|b| - 1]);
      assert (a + b)[..|a + b| - 1] == a + b[..|b| - 1];
    }
  }

  lemma PageLasts(job: Job, margins: Margins, c: nat, k: nat)
    requires k < |job.pages|
    ensures Lasts(job.PageEvents(margins, c, k))
         == if job.pages[k].file != "" && job.pages[k].last && c == job.copies - 1 then 1 else 0
  {
    var e := job.PageEvents(margins, c, k);
    if job.pages[k].file != "" {
      LastsOne(e[0]);
      LastsOne(BlankSide);
      LastsConcat([e[0]], [BlankSide]);
      assert e == [e[0]] || e == [e[0]] + [BlankSide];
    }
    hide Job.CorruptBefore, Job.Count;
  }

  lemma LastsOne(e: Event)
    ensures Lasts([e]) == if e.Handled? && e.last then 1 else 0
    ensures Lasts([]) == 0
  {
    assert [e][..0] == [];
  }

  lemma {:induction false} PagesLasts(job: Job, margins: Margins, c: nat, n: nat)
    requires job.WellQueued() && n <= |job.pages|
    ensures Lasts(job.PagesEvents(margins, c, n))
         == if n == |job.pages| && job.pages[n - 1].file != "" && c == job.copies - 1 then 1 else 0
  {
    hide Lasts, Job.PageEvents;
    if n == 0 {
      LastsOne(BlankSide);
    } else {
      PagesLasts(job, margins, c, n - 1);
      LastsConcat(job.PagesEvents(margins, c, n - 1), job.PageEvents(margins, c, n - 1));
      PageLasts(job, margins, c, n - 1);
    }
  }

  /** A whole job says so once, of its last message in its last copy, if that message has a file; and never
      otherwise. */
  lemma {:induction false} LastIsToldOnce(job: Job, margins: Margins, backside: bool, c: nat)
    requires job.WellQueued() && c <= job.copies
    ensures Lasts(job.Log(margins, backside, c))
         == if c > 0 && c == job.copies && job.pages[|job.pages| - 1].file != "" then 1 else 0
  {
    hide Lasts, Job.PagesEvents;
    LastsOne(BlankSide);
    if c > 0 {
      LastIsToldOnce(job, margins, backside, c - 1);
      var n := |job.pages|;
      PagesLasts(job, margins, c - 1, n);
      var tail := if job.duplex && job.blanks && job.EndsOnBack(backside, n) then [BlankSide] else [];
      LastsConcat(job.PagesEvents(margins, c - 1, n), tail);
      LastsConcat(job.Log(margins, backside, c - 1), job.CopyEvents(margins, backside, c - 1));
    }
  }

  datatype Sheet = Sheet(file: string, pageNum: int, backside: bool, margins: Margins)

  /** The pages a log hands to the plugin or finds corrupt, in order. */
  function Sheets(events: seq<Event>): seq<Sheet> {
    if events == [] then []
    else
      var e := events[|events| - 1];
      Sheets(events[..|events| - 1])
      + (if e.Handled? then [Sheet(e.file, e.pageNum, e.backside, e.margins)] else [])
  }

  lemma {:induction false} SheetsConcat(a: seq<Event>, b: seq<Event>)
    ensures Sheets(a + b) == Sheets(a) + Sheets(b)
  {
    if b == [] {
      assert a + b == a;
    } else {
      SheetsConcat(a, b[..|b| - 1]);
      assert (a + b)[..|a + b| - 1] == a + b[..|b| - 1];
    }
  }

  /** Sides of paper a log uses: pages found corrupt earlier only use one as a blank. */
  function Sides(events: seq<Event>): nat {
    if events == [] then 0
    else
      var e := events[|events| - 1];
      Sides(events[..|events| - 1]) + (if e.Handled? && e.corrupted then 0 else 1)
  }

  lemma {:induction false} SidesConcat(a: seq<Event>, b: seq<Event>)
    ensures Sides(a + b) == Sides(a) + Sides(b)
  {
    if b == [] {
      assert a + b == a;
    } else {
      SidesConcat(a, b[..|b| - 1]);
      assert (a + b)[..|a + b| - 1] == a + b[..|b| - 1];
    }
  }

  lemma OneEvent(e: Event)
    ensures Sheets([e]) == if e.Handled? then [Sheet(e.file, e.pageNum, e.backside, e.margins)] else []
    ensures Sides([e]) == if e.Handled? && e.corrupted then 0 else 1
  {
    assert [e][..0] == [];
  }

  lemma NoEvents()
    ensures Sheets([]) == [] && Sides([]) == 0
  {
  }

  lemma PageEventsMean(job: Job, margins: Margins, c: nat, k: nat)
    requires k < |job.pages|
    ensures var e, p, n := job.PageEvents(margins, c, k), job.pages[k], job.Count(k + 1);
            && Sheets(e) == (if p.file == "" then []
                 else [Sheet(p.file, if p.pdfPage then p.pageNum else n, n % 2 == 1, AddMargins(margins, p.margins))])
            && (job.duplex && job.blanks ==> Sides(e) == if p.file == "" then 0 else 1)
  {
    var e := job.PageEvents(margins, c, k);
    if e != [] {
      OneEvent(e[0]);
      OneEvent(BlankSide);
      SheetsConcat([e[0]], [BlankSide]);
      SidesConcat([e[0]], [BlankSide]);
      assert e == [e[0]] || e == [e[0]] + [BlankSide];
    }
    hide Job.Count, Job.CorruptBefore, AddMargins, Sheets, Sides;
  }

  /** The pages with a file among the first k, as the client queued them. */
  function Queued(job: Job, margins: Margins, k: nat): seq<Sheet>
    requires k <= |job.pages|
  {
    if k == 0 then []
    else
      var p, n := job.pages[k - 1], job.Count(k);
      Queued(job, margins, k - 1)
      + (if p.file == "" then []
         else [Sheet(p.file, if p.pdfPage then p.pageNum else n, n % 2 == 1, AddMargins(margins, p.margins))])
  }

  lemma {:induction false} PagesReplay(job: Job, margins: Margins, c: nat, k: nat)
    requires k <= |job.pages|
    ensures Sheets(job.PagesEvents(margins, c, k)) == Queued(job, margins, k)
  {
    hide Sheets, Sides, Job.PageEvents, Job.Count, AddMargins;
    if k > 0 {
      PagesReplay(job, margins, c, k - 1);
      SheetsConcat(job.PagesEvents(margins, c, k - 1), job.PageEvents(margins, c, k - 1));
      PageEventsMean(job, margins, c, k - 1);
    } else {
      NoSheets();
    }
  }

  lemma NoSheets()
    ensures Sheets([]) == []
  {
  }

  /** Every copy handles the pages the client queued, all of them, in the same order, with the same page
      numbers, sides and margins. */
  lemma CopiesReplayPages(job: Job, margins: Margins, backside: bool, c: nat)
    ensures Sheets(job.CopyEvents(margins, backside, c)) == Queued(job, margins, |job.pages|)
  {
    PagesReplay(job, margins, c, |job.pages|);
    var tail := if job.duplex && job.blanks && job.EndsOnBack(backside, |job.pages|) then [BlankSide] else [];
    SheetsConcat(job.PagesEvents(margins, c, |job.pages|), tail);
    OneEvent(BlankSide);
    assert Sheets(tail) == [];
    hide Sheets, Queued, Job.PagesEvents, Job.EndsOnBack;
  }

  lemma {:induction false} PagesSides(job: Job, margins: Margins, c: nat, k: nat)
    requires k <= |job.pages| && job.duplex && job.blanks
    ensures Sides(job.PagesEvents(margins, c, k)) == job.Count(k)
  {
    hide *;
    if k > 0 {
      PagesSides(job, margins, c, k - 1);
      SidesConcat(job.PagesEvents(margins, c, k - 1), job.PageEvents(margins, c, k - 1));
      PageEventsMean(job, margins, c, k - 1);
      EventsStep(job, margins, false, false, c, k - 1);
      CountPage(job, k - 1);
    } else {
      CopyStarts(job, margins, false, c);
      NoEvents();
    }
  }

  lemma CountPage(job: Job, k: nat)
    requires k < |job.pages|
    ensures job.Count(k + 1) == job.Count(k) + if job.pages[k].file == "" then 0 else 1
  {
  }

  lemma CopyEnds(job: Job, margins: Margins, backside: bool, c: nat)
    ensures var n := |job.pages|; var back := job.EndsOnBack(backside, n);
            && job.CopyEvents(margins, backside, c)
               == job.PagesEvents(margins, c, n) + (if job.duplex && job.blanks && back then [BlankSide] else [])
            && back == (if job.Count(n) == 0 then backside else job.Count(n) % 2 == 1)
  {
  }

  /** Every duplex copy ends on an even number of sides, unless the job has no page at all and the side it
      started with was the back. */
  lemma DuplexCopiesAreEven(job: Job, margins: Margins, backside: bool, c: nat)
    requires job.duplex && job.blanks
    ensures Sides(job.CopyEvents(margins, backside, c)) % 2 == 0 <==> job.Count(|job.pages|) > 0 || !backside
  {
    hide *;
    var n := |job.pages|;
    PagesSides(job, margins, c, n);
    var tail := if job.EndsOnBack(backside, n) then [BlankSide] else [];
    SidesConcat(job.PagesEvents(margins, c, n), tail);
    OneEvent(BlankSide);
    NoEvents();
    CopyEnds(job, margins, backside, c);
  }

  /** The pages the plugin found corrupt in some copy. */
  ghost function CorruptSet(job: Job, c: nat, k: nat): set<nat>
    requires k <= |job.pages|
  {
    set j: nat | j < k && job.CorruptBefore(c, j)
  }

  /** Each corrupt page is counted once, however many copies there are. */
  lemma {:induction false} CorruptCountedOnce(job: Job, c: nat, k: nat)
    requires k <= |job.pages|
    ensures job.CorruptPages(c, k) == |CorruptSet(job, c, k)|
  {
    if k == 0 {
      assert CorruptSet(job, c, k) == {};
    } else {
      CorruptCountedOnce(job, c, k - 1);
      var before := CorruptSet(job, c, k - 1);
      assert CorruptSet(job, c, k) == if job.CorruptBefore(c, k - 1) then before + {k - 1} else before;
    }
  }

  lemma {:induction false} CorruptBeforeMeans(job: Job, c: nat, k: nat)
    requires k < |job.pages| && job.pages[k].file != ""
    ensures job.CorruptBefore(c, k) <==> exists i: nat :: i < c && job.outcome(i, k) == Corrupt
  {
    if c > 0 {
      CorruptBeforeMeans(job, c - 1, k);
      assert job.outcome(c - 1, k) == Corrupt || forall i: nat | i < c && job.outcome(i, k) == Corrupt :: i < c - 1;
    }
  }
}
