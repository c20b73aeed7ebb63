/** Printing a job with reprints (examples/printpbm.cpp:178-283). */
module PrintJobs {
  import opened Bytes
  import opened Streams
  import opened Packets
  import opened BufferedPages
  import opened Transmissions
  import opened CaptPrinters

  datatype ReprintStatus = NoReprint | ReprintPrev | ReprintCurrent

  /** The status the printer comes to rest in. */
  datatype PrintEnd = PrintEnd(ready: bool, videoDataError: bool, reprint: ReprintStatus)

  datatype Waited = Ended(status: PrintEnd) | Stopped | Silent

  /** What the print loop did and heard: a try at sending one page, with the page's number, what was
      asked first and what was sent; or the status that the printer came to rest in. */
  datatype Entry =
    | Attempt(page: nat, asked: seq<Event>, sent: seq<Event>, complete: bool)
    | Answer(status: PrintEnd)
  {
    function Events(): seq<Event> {
      if Attempt? then asked + sent else []
    }

    /** The page that went out whole. */
    function Whole(): seq<nat> {
      if Attempt? && complete then [page] else []
    }

    function Answers(): seq<PrintEnd> {
      if Answer? then [status] else []
    }

    /** The looks at the stop token that came before, at least. */
    function Looks(): nat {
      if Attempt? then 2 else 1
    }
  }

  function EventsOf(log: seq<Entry>): seq<Event> {
    if log == [] then [] else EventsOf(log[..|log| - 1]) + log[|log| - 1].Events()
  }

  /** The numbers of the pages that went out whole, in order. */
  function Completed(log: seq<Entry>): seq<nat> {
    if log == [] then [] else Completed(log[..|log| - 1]) + log[|log| - 1].Whole()
  }

  function Answers(log: seq<Entry>): seq<PrintEnd> {
    if log == [] then [] else Answers(log[..|log| - 1]) + log[|log| - 1].Answers()
  }

  function Looks(log: seq<Entry>): nat {
    if log == [] then 0 else Looks(log[..|log| - 1]) + log[|log| - 1].Looks()
  }

  lemma LogNone()
    ensures EventsOf([]) == [] && Completed([]) == [] && Answers([]) == [] && Looks([]) == 0 && Polled([]) == []
  {
  }

  lemma LogSnoc(log: seq<Entry>, e: Entry)
    ensures EventsOf(log + [e]) == EventsOf(log) + e.Events()
    ensures Completed(log + [e]) == Completed(log) + e.Whole()
    ensures Answers(log + [e]) == Answers(log) + e.Answers()
    ensures Looks(log + [e]) == Looks(log) + e.Looks()
  {
    assert (log + [e])[..|log|] == log;
  }

  lemma {:induction false} LogAppend(a: seq<Entry>, b: seq<Entry>)
    ensures EventsOf(a + b) == EventsOf(a) + EventsOf(b)
    ensures Completed(a + b) == Completed(a) + Completed(b)
    ensures Answers(a + b) == Answers(a) + Answers(b)
    ensures Looks(a + b) == Looks(a) + Looks(b)
    decreases |b|
  {
    hide EventsOf, Completed, Answers, Looks, Polled;
    LogNone();
    if b == [] {
      assert a + b == a;
    } else {
      var b', last := b[..|b| - 1], b[|b| - 1];
      assert a + b == a + b' + [last] && b == b' + [last];
      LogSnoc(a + b', last);
      LogSnoc(b', last);
      LogAppend(a, b');
      Assoc(EventsOf(a), EventsOf(b'), last.Events());
      Assoc(Completed(a), Completed(b'), last.Whole());
      Assoc(Answers(a), Answers(b'), last.Answers());
    }
  }

  // ----- what is to be done next, by what was done and what the printer answered

  /** In the course of sending one page: a try is to be made, at the page or again at the one before;
      the printer is to be asked how a failed try ended; the page is out; the printer rejected the
      data; it claims to be ready after a failed try. `Stuck` is what must not happen. */
  datatype Todo = Send(again: bool) | Ask | Out | Rejected | Broken | Stuck

  function Step(t: Todo, e: Entry, page: nat, prev: Option<nat>): Todo {
    match (t, e)
    case (Send(again), Attempt(number, _, _, complete)) =>
      if again && prev == None then Stuck
      else if number != (if again then prev.value else page) then Stuck
      else if !complete then Ask
      else if again then Send(false)
      else Out
    case (Ask, Answer(status)) =>
      if status.videoDataError then Rejected
      else if status.ready then Broken
      else Send(status.reprint == ReprintPrev && prev != None)
    case _ => Stuck
  }

  /** The sending of `page`, with `prev` at hand to be sent again. */
  function Steps(log: seq<Entry>, page: nat, prev: Option<nat>): Todo {
    if log == [] then Send(false) else Step(Steps(log[..|log| - 1], page, prev), log[|log| - 1], page, prev)
  }

  lemma StepsSnoc(log: seq<Entry>, e: Entry, page: nat, prev: Option<nat>)
    ensures Steps(log + [e], page, prev) == Step(Steps(log, page, prev), e, page, prev)
  {
    assert (log + [e])[..|log|] == log;
  }

  /** The whole job: page `i` of it is being sent; all are out and the printer is to be asked about
      the last (`Ending(Out)`), or that one is being sent again; the printer has accepted it. */
  datatype JobTodo = Writing(i: nat, todo: Todo) | Ending(todo: Todo) | AllOut

  function Before(i: nat): Option<nat> {
    if i == 0 then None else Some(i - 1)
  }

  /** Where the job is when the sending of a page, the i-th or once more the last, is at `t`. */
  function Enter(i: Option<nat>, t: Todo, n: nat): JobTodo {
    if i == None then Ending(t)
    else if t != Out then Writing(i.value, t)
    else if i.value + 1 < n then Writing(i.value + 1, Send(false))
    else Ending(Out)
  }

  function JobStep(j: JobTodo, e: Entry, n: nat): JobTodo
    requires n > 0
  {
    match j
    case Writing(i, t) => Enter(Some(i), Step(t, e, i, Before(i)), n)
    case Ending(t) =>
      if t != Out then Ending(Step(t, e, n - 1, None))
      else if e.Attempt? then Ending(Stuck)
      else if e.status.videoDataError then Ending(Rejected)
      else if e.status.reprint == NoReprint then AllOut
      else Ending(Send(false))
    case AllOut => Ending(Stuck)
  }

  /** Where the job is after `log`, from `j` on. */
  function JobSteps(j: JobTodo, log: seq<Entry>, n: nat): JobTodo
    requires n > 0
  {
    if log == [] then j else JobStep(JobSteps(j, log[..|log| - 1], n), log[|log| - 1], n)
  }

  const JobStart: JobTodo := Writing(0, Send(false))

  lemma JobStepsSnoc(j: JobTodo, log: seq<Entry>, e: Entry, n: nat)
    requires n > 0
    ensures JobSteps(j, log + [e], n) == JobStep(JobSteps(j, log, n), e, n)
  {
    assert (log + [e])[..|log|] == log;
  }

  lemma {:induction false} JobStepsAppend(j: JobTodo, a: seq<Entry>, b: seq<Entry>, n: nat)
    requires n > 0
    ensures JobSteps(j, a + b, n) == JobSteps(JobSteps(j, a, n), b, n)
    decreases |b|
  {
    if b == [] {
      assert a + b == a;
    } else {
      var b', last := b[..|b| - 1], b[|b| - 1];
      assert a + b == a + b' + [last] && b == b' + [last];
      hide JobStep;
      JobStepsSnoc(j, a + b', last, n);
      JobStepsSnoc(JobSteps(j, a, n), b', last, n);
      JobStepsAppend(j, a, b', n);
    }
  }

  /** The sending of one page, seen from the job. */
  lemma {:induction false} JobPage(more: seq<Entry>, i: Option<nat>, n: nat)
    requires n > 0
    requires Steps(more, if i == None then n - 1 else i.value, if i == None then None else Before(i.value)) != Stuck
    ensures JobSteps(Enter(i, Send(false), n), more, n) ==
            Enter(i, Steps(more, if i == None then n - 1 else i.value, if i == None then None else Before(i.value)), n)
    decreases |more|
  {
    var page, prev := if i == None then n - 1 else i.value, if i == None then None else Before(i.value);
    if more != [] {
      var more', last := more[..|more| - 1], more[|more| - 1];
      assert more == more' + [last];
      StepsSnoc(more', last, page, prev);
      JobStepsSnoc(Enter(i, Send(false), n), more', last, n);
      hide Steps, JobSteps;
      JobPage(more', i, n);
    }
  }

  /** What the pages that went out whole come to, by what is to be done next. */
  predicate Sofar(pages: seq<nat>, t: Todo, page: nat, prev: Option<nat>) {
    match t
    case Stuck => true
    case Out => ReprintsThenPage(pages, prev, page)
    case _ => OnlyReprints(pages, prev)
  }

  lemma SofarStep(pages: seq<nat>, t: Todo, e: Entry, page: nat, prev: Option<nat>)
    requires Sofar(pages, t, page, prev)
    ensures Sofar(pages + e.Whole(), Step(t, e, page, prev), page, prev)
  {
    hide OnlyReprints, ReprintsThenPage;
    assert pages + [] == pages;
    if t.Send? && e.Attempt? && e.complete {
      ReprintsSnoc(pages, prev, e.page);
    }
  }

  lemma {:induction false} PageOrder(log: seq<Entry>, page: nat, prev: Option<nat>)
    ensures Sofar(Completed(log), Steps(log, page, prev), page, prev)
    decreases |log|
  {
    hide Completed, EventsOf, Answers, Looks;
    LogNone();
    if log != [] {
      hide Sofar, Step;
      var log', last := log[..|log| - 1], log[|log| - 1];
      assert log == log' + [last];
      PageOrder(log', page, prev);
      LogSnoc(log', last);
      SofarStep(Completed(log'), Steps(log', page, prev), last, page, prev);
    }
  }

  predicate JobSofar(pages: seq<nat>, j: JobTodo, n: nat) {
    match j
    case AllOut => InOrder(pages, n)
    case Writing(i, t) => t == Stuck || InOrder(pages, i)
    case Ending(t) => t == Stuck || InOrder(pages, n)
  }

  lemma InOrderStep(pages: seq<nat>, n: nat, page: nat)
    requires InOrder(pages, n)
    ensures page == n || (n > 0 && page == n - 1) ==> InOrder(pages + [page], page + 1)
  {
  }

  lemma JobSofarStep(pages: seq<nat>, j: JobTodo, e: Entry, n: nat)
    requires n > 0 && JobSofar(pages, j, n) && (j.Writing? ==> j.i < n && j.todo != Out)
    ensures JobSofar(pages + e.Whole(), JobStep(j, e, n), n)
    ensures var j' := JobStep(j, e, n); j'.Writing? ==> j'.i < n && j'.todo != Out
  {
    hide InOrder;
    assert pages + [] == pages;
    if e.Attempt? && e.complete {
      match j
      case Writing(i, t) =>
        if t != Stuck {
          InOrderStep(pages, i, e.page);
        }
      case Ending(t) =>
        if t != Stuck {
          InOrderStep(pages, n, e.page);
        }
      case AllOut =>
    }
  }

  /** A job's pages go out in order, each again only before the next: whatever the printer answers. */
  lemma {:induction false} JobOrder(log: seq<Entry>, n: nat)
    requires n > 0
    ensures JobSofar(Completed(log), JobSteps(JobStart, log, n), n)
    ensures var j := JobSteps(JobStart, log, n); j.Writing? ==> j.i < n && j.todo != Out
    decreases |log|
  {
    hide Completed, EventsOf, Answers, Looks;
    LogNone();
    if log != [] {
      hide JobSofar, JobStep;
      var log', last := log[..|log| - 1], log[|log| - 1];
      assert log == log' + [last];
      JobOrder(log', n);
      LogSnoc(log', last);
      JobSofarStep(Completed(log'), JobSteps(JobStart, log', n), last, n);
    }
  }

  /** The wait for the last page: only that page goes out again. When the printer has accepted it, that
      was its last answer, and each answer before was followed by a try. */
  predicate LastSofar(log: seq<Entry>, j: JobTodo, n: nat)
    requires n > 0
  {
    match j
    case Writing(_, _) => false
    case AllOut =>
      && OnlyReprints(Completed(log), Some(n - 1)) && |log| == 2 * |Answers(log)| - 1
      && log[|log| - 1].Answer? && log[|log| - 1].status.reprint == NoReprint
      && !log[|log| - 1].status.videoDataError
    case Ending(t) =>
      t != Stuck ==>
        && OnlyReprints(Completed(log), Some(n - 1))
        && |log| == 2 * |Answers(log)| - if t == Out || t == Ask then 0 else 1
  }

  lemma LastSofarStep(log: seq<Entry>, j: JobTodo, e: Entry, n: nat)
    requires n > 0 && LastSofar(log, j, n)
    ensures LastSofar(log + [e], JobStep(j, e, n), n)
  {
    hide Completed, Answers, EventsOf, Looks;
    LogSnoc(log, e);
  }

  lemma {:induction false} LastOrder(log: seq<Entry>, n: nat)
    requires n > 0
    ensures LastSofar(log, JobSteps(Ending(Out), log, n), n)
    decreases |log|
  {
    hide Completed, EventsOf, Answers, Looks;
    LogNone();
    if log != [] {
      hide JobStep, LastSofar;
      var log', last := log[..|log| - 1], log[|log| - 1];
      assert log == log' + [last];
      LastOrder(log', n);
      JobStepsSnoc(Ending(Out), log', last, n);
      LastSofarStep(log', JobSteps(Ending(Out), log', n), last, n);
    }
  }

  /** A page as it must arrive: its number, its parameters and its whole video stream (nothing,
      for a printer that reports blocks of size zero). */
  datatype Sheet = Sheet(number: nat, params: PageParams, video: seq<byte>)

  /** A try is a transmission of that page, from its first byte, unless the blocks are too large to
      send anything. */
  predicate Faithful(a: Entry, sheet: Sheet, blockSize: nat)
    requires a.Attempt?
  {
    && a.page == sheet.number && (a.asked == [] || a.asked == [AskInfo])
    && if blockSize + 4 > 0xffff then a.sent == [] && !a.complete
       else Transmission(a.sent, sheet.params, sheet.video, blockSize, a.complete)
  }

  predicate AllFaithful(log: seq<Entry>, sheets: set<Sheet>, blockSize: nat) {
    forall i | 0 <= i < |log| :: FaithfulToSome(log[i], sheets, blockSize)
  }

  predicate FaithfulToSome(a: Entry, sheets: set<Sheet>, blockSize: nat) {
    a.Answer? || exists sheet | sheet in sheets :: Faithful(a, sheet, blockSize)
  }

  lemma FaithfulSnoc(log: seq<Entry>, a: Entry, sheet: Sheet, sheets: set<Sheet>, blockSize: nat)
    requires AllFaithful(log, sheets, blockSize) && sheet in sheets
    requires a.Attempt? ==> Faithful(a, sheet, blockSize)
    ensures AllFaithful(log + [a], sheets, blockSize)
  {
    hide Faithful;
    assert FaithfulToSome(a, sheets, blockSize);
  }

  /** The pages that went out whole are some reprints of `prev`, then `page` once. */
  predicate ReprintsThenPage(pages: seq<nat>, prev: Option<nat>, page: nat) {
    pages != [] && pages[|pages| - 1] == page && OnlyReprints(pages[..|pages| - 1], prev)
  }

  predicate OnlyReprints(pages: seq<nat>, prev: Option<nat>) {
    forall i | 0 <= i < |pages| :: prev == Some(pages[i])
  }

  lemma ReprintsSnoc(pages: seq<nat>, prev: Option<nat>, page: nat)
    requires OnlyReprints(pages, prev)
    ensures prev == Some(page) ==> OnlyReprints(pages + [page], prev)
    ensures ReprintsThenPage(pages + [page], prev, page)
  {
    assert (pages + [page])[..|pages|] == pages;
  }

  function NumberOf(sheet: Option<Sheet>): Option<nat> {
    if sheet == None then None else Some(sheet.value.number)
  }

  /** A page of the job file. */
  datatype Source = Source(params: PageParams, video: seq<byte>)

  function SheetFor(sources: seq<Source>, i: nat, blockSize: nat): Sheet
    requires i < |sources|
  {
    Sheet(i, sources[i].params, if blockSize == 0 then [] else sources[i].video)
  }

  function SheetsOf(sources: seq<Source>, blockSize: nat): set<Sheet> {
    set i | 0 <= i < |sources| :: SheetFor(sources, i, blockSize)
  }

  /** Pages 0 to n - 1, each at least once, in order, and again only before the next. */
  predicate InOrder(pages: seq<nat>, n: nat) {
    if n == 0 then pages == []
    else
      && pages != [] && pages[0] == 0 && pages[|pages| - 1] == n - 1
      && forall i | 0 < i < |pages| :: pages[i] == pages[i - 1] || pages[i] == pages[i - 1] + 1
  }

  /** Every page of an ordered job is in it. */
  lemma {:induction false} InOrderHasAll(pages: seq<nat>, n: nat, page: nat)
    requires InOrder(pages, n) && page < n
    ensures page in pages
    decreases |pages|
  {
    var last := |pages| - 1;
    if pages[last] != page {
      var shorter := pages[..last];
      assert last > 0;
      assert pages[last] == pages[last - 1] || pages[last] == pages[last - 1] + 1;
      assert InOrder(shorter, pages[last - 1] + 1);
      InOrderHasAll(shorter, pages[last - 1] + 1, page);
    }
  }

  /** Where a run started: what had been sent, and what is to come of the printer's answers and of the
      looks at the token that say "no". */
  datatype JobSnapshot = JobSnapshot(trace: seq<Event>, statuses: seq<byte>, ends: seq<PrintEnd>, left: Option<nat>)

  /** From `at` to `now`, exactly what `log` says was sent, and exactly the answers in it were taken,
      each where it says. Every entry cost looks at the token that said "no". */
  predicate Between(at: JobSnapshot, log: seq<Entry>, now: JobSnapshot) {
    && now.trace == at.trace + EventsOf(log)
    && at.statuses == Polled(EventsOf(log)) + now.statuses
    && at.ends == Answers(log) + now.ends
    && (at.left == None ==> now.left == None)
    && (at.left.Some? ==> now.left.Some? && Looks(log) + now.left.value <= at.left.value)
  }

  lemma BetweenJoin(at: JobSnapshot, a: seq<Entry>, then': JobSnapshot, b: seq<Entry>, now: JobSnapshot)
    requires Between(at, a, then') && Between(then', b, now)
    ensures Between(at, a + b, now)
  {
    hide EventsOf, Answers, Looks, Polled, Completed;
    LogAppend(a, b);
    PolledAppend(EventsOf(a), EventsOf(b));
    Assoc(at.trace, EventsOf(a), EventsOf(b));
    Assoc(Polled(EventsOf(a)), Polled(EventsOf(b)), now.statuses);
    Assoc(Answers(a), Answers(b), now.ends);
  }

  /** The printer as the print loop sees it, with the states it comes to rest in. */
  class PrintEnv {
    const printer: CaptPrinter
    var ends: seq<PrintEnd>

    constructor (printer: CaptPrinter, ends: seq<PrintEnd>)
      ensures this.printer == printer && this.ends == ends
    {
      this.printer, this.ends := printer, ends;
    }

    ghost function Now(token: StopToken): JobSnapshot
      reads this, printer, token
    {
      JobSnapshot(printer.trace, printer.statuses, ends, token.left)
    }

    ghost predicate Since(at: JobSnapshot, token: StopToken, log: seq<Entry>)
      reads this, printer, token
    {
      Between(at, log, Now(token))
    }

    lemma SinceStart(at: JobSnapshot, token: StopToken)
      requires at == Now(token)
      ensures Since(at, token, [])
    {
      LogNone();
    }

    /** How a call came out, by what was left to be done. */
    ghost predicate Tells(v: Verdict, t: Todo, token: StopToken)
      reads this, printer, token
    {
      && t != Stuck && (t == Out ==> v == Finished(true))
      && (t == Rejected ==> v == Finished(false)) && (t == Broken ==> v == AssertionFailed)
      && match v
         case Finished(ok) => if ok then token.Requested() || t == Out else t == Rejected
         case AssertionFailed => t == Broken || printer.reportedBlockSize + 4 > 0xffff
         case CutOff => printer.statuses == [] || ends == []
    }

    /** `WaitPrintEnd`: the next of the printer's answers. */
    method WaitPrintEnd(token: StopToken) returns (w: Waited)
      modifies this`ends, token
      ensures w == Stopped ==> token.Requested()
      ensures w == Silent ==> ends == []
      ensures w.Ended? ==> old(ends) == [w.status] + ends
      ensures !w.Ended? ==> ends == old(ends)
      ensures old(token.Requested()) ==> w == Stopped
      ensures old(token.left) == None ==> token.left == None
      ensures old(token.left).Some? ==>
                token.left.Some? && token.left.value + (if w == Stopped then 0 else 1) <= old(token.left).value
    {
      var stop := token.StopRequested();
      if stop {
        return Stopped;
      }
      if ends == [] {
        return Silent;
      }
      w := Ended(ends[0]);
      ends := ends[1..];
    }

    ghost function SheetOf(p: BufferedPage): Sheet
      reads p, p.videoStream
      requires p.Valid()
    {
      Sheet(p.pageNumber, p.params, if printer.reportedBlockSize == 0 then [] else p.Complete())
    }

    /** One try at sending page `p`, from its beginning and without a stop token. */
    method Send(p: BufferedPage) returns (v: Verdict, ghost a: Entry)
      requires printer.Valid() && p.Valid()
      modifies printer`trace, printer`cachedInfo, printer`statuses, printer.stream
      modifies p`buffer, p`gptr, p`egptr, p.videoStream
      ensures printer.Valid() && p.Valid() && p.Complete() == old(p.Complete())
      ensures a.Attempt? && printer.trace == old(printer.trace) + a.Events()
      ensures old(printer.statuses) == Polled(a.Events()) + printer.statuses
      ensures a.page == p.pageNumber && a.complete == (v == Finished(true))
      ensures Faithful(a, SheetOf(p), printer.reportedBlockSize)
      ensures v == Finished(true) && printer.reportedBlockSize > 0 ==> p.buffer == p.Complete()
      ensures v == AssertionFailed ==> printer.reportedBlockSize + 4 > 0xffff
      ensures v == CutOff ==> printer.statuses == []
    {
      hide Transmission, Polled, EventsOf;
      var r := p.Seekpos(0, true);
      assert p.Pending() == p.Complete();
      var never := new StopToken(None);
      ghost var asked := if printer.cachedInfo == None then [AskInfo] else [];
      ghost var es;
      v, es := printer.WriteVideoData(never, p.params, p, 0);
      AskedPolled(es);
      a := Attempt(p.pageNumber, asked, es, v == Finished(true));
      Assoc(old(printer.trace), asked, es);
    }

    /** Whether a page can still go out whole: its source is separate from its neighbour's. */
    ghost predicate Apart(page: BufferedPage, prev: BufferedPage?)
      reads page, prev
    {
      prev != null ==> prev != page && (prev.videoStream == null || prev.videoStream != page.videoStream)
    }

    /** The two pages a call of `WritePage` has in hand, unchanged. */
    ghost predicate InHand(page: BufferedPage, prev: BufferedPage?, sheet: Sheet, prevSheet: Option<Sheet>)
      reads page, page.videoStream, prev, if prev != null then {prev.videoStream} else {}
    {
      && Apart(page, prev) && page.Valid() && SheetOf(page) == sheet
      && if prev == null then prevSheet == None else prev.Valid() && prevSheet == Some(SheetOf(prev))
    }

    static function Both(sheet: Sheet, prevSheet: Option<Sheet>): set<Sheet> {
      {sheet} + if prevSheet == None then {} else {prevSheet.value}
    }

    /** A try, entered in the log, after two looks at the token. */
    method Try(p: BufferedPage, token: StopToken, ghost log: seq<Entry>, ghost sheets: set<Sheet>,
               ghost at: JobSnapshot)
      returns (v: Verdict, ghost log': seq<Entry>)
      requires printer.Valid() && p.Valid() && SheetOf(p) in sheets && Looked(at, token, log)
      requires AllFaithful(log, sheets, printer.reportedBlockSize)
      modifies printer`trace, printer`cachedInfo, printer`statuses, printer.stream
      modifies p`buffer, p`gptr, p`egptr, p.videoStream
      ensures printer.Valid() && p.Valid() && SheetOf(p) == old(SheetOf(p))
      ensures Since(at, token, log') && AllFaithful(log', sheets, printer.reportedBlockSize)
      ensures |log'| > 0 && log'[|log'| - 1].Attempt? && log' == log + [log'[|log'| - 1]]
      ensures log'[|log'| - 1].page == p.pageNumber && log'[|log'| - 1].complete == (v == Finished(true))
      ensures v == Finished(true) && printer.reportedBlockSize > 0 ==> p.buffer == p.Complete()
      ensures v == AssertionFailed ==> printer.reportedBlockSize + 4 > 0xffff
      ensures v == CutOff ==> printer.statuses == []
    {
      hide Faithful, EventsOf, Completed, Answers, Looks, Polled, PacketsOf, Frames, AllWritable;
      ghost var a;
      v, a := Send(p);
      LogSnoc(log, a);
      PolledAppend(EventsOf(log), a.Events());
      Assoc(at.trace, EventsOf(log), a.Events());
      Assoc(Polled(EventsOf(log)), Polled(a.Events()), printer.statuses);
      assert Answers(log) + [] == Answers(log);
      FaithfulSnoc(log, a, SheetOf(p), sheets, printer.reportedBlockSize);
      log' := log + [a];
    }

    /** As `Since`, with two looks at the token more. */
    ghost predicate Looked(at: JobSnapshot, token: StopToken, log: seq<Entry>)
      reads this, printer, token
    {
      && Since(at, token, log)
      && (at.left.Some? ==> token.left.Some? && Looks(log) + 2 + token.left.value <= at.left.value)
    }

    /** A try at one of the two pages. */
    method TryEither(token: StopToken, page: BufferedPage, prev: BufferedPage?, again: bool, ghost log: seq<Entry>,
                     ghost sheet: Sheet, ghost prevSheet: Option<Sheet>, ghost at: JobSnapshot)
      returns (v: Verdict, ghost log': seq<Entry>)
      requires printer.Valid() && InHand(page, prev, sheet, prevSheet) && (again ==> prev != null)
      requires Looked(at, token, log)
      requires AllFaithful(log, Both(sheet, prevSheet), printer.reportedBlockSize)
      requires Steps(log, sheet.number, NumberOf(prevSheet)) == Todo.Send(again)
      modifies printer`trace, printer`cachedInfo, printer`statuses, printer.stream
      modifies page`buffer, page`gptr, page`egptr, page.videoStream
      modifies if prev != null then {prev} else {}
      modifies if prev != null && prev.videoStream != null then {prev.videoStream} else {}
      ensures printer.Valid() && InHand(page, prev, sheet, prevSheet) && Since(at, token, log')
      ensures AllFaithful(log', Both(sheet, prevSheet), printer.reportedBlockSize)
      ensures Steps(log', sheet.number, NumberOf(prevSheet)) ==
              if v != Finished(true) then Ask else if again then Todo.Send(false) else Out
      ensures v == Finished(true) && !again && printer.reportedBlockSize > 0 ==> page.buffer == page.Complete()
      ensures v == AssertionFailed ==> printer.reportedBlockSize + 4 > 0xffff
      ensures v == CutOff ==> printer.statuses == []
    {
      hide AllFaithful, EventsOf, Completed, Answers, Looks, Polled, PacketsOf, Frames, AllWritable, Since, Steps;
      if again {
        v, log' := Try(prev, token, log, Both(sheet, prevSheet), at);
      } else {
        v, log' := Try(page, token, log, Both(sheet, prevSheet), at);
      }
      StepsSnoc(log, log'[|log'| - 1], sheet.number, NumberOf(prevSheet));
    }

    /** What follows a try that did not go through: an end, or what the printer asks for. */
    method AfterFailure(token: StopToken, ghost log: seq<Entry>, ghost sheet: Sheet, ghost prevSheet: Option<Sheet>,
                        ghost at: JobSnapshot)
      returns (over: Option<Verdict>, reprint: ReprintStatus, ghost log': seq<Entry>)
      requires Since(at, token, log) && Steps(log, sheet.number, NumberOf(prevSheet)) == Ask
      requires AllFaithful(log, Both(sheet, prevSheet), printer.reportedBlockSize)
      modifies this`ends, token
      ensures Since(at, token, log') && |ends| <= |old(ends)|
      ensures AllFaithful(log', Both(sheet, prevSheet), printer.reportedBlockSize)
      ensures var t := Steps(log', sheet.number, NumberOf(prevSheet));
              if over.Some? then Tells(over.value, t, token)
              else |ends| < |old(ends)| && t == Todo.Send(reprint == ReprintPrev && prevSheet != None)
      ensures over == Some(Finished(true)) ==> token.Requested()
    {
      hide AllFaithful, EventsOf, Completed, Answers, Looks, Polled, Steps;
      log' := log;
      var w := WaitPrintEnd(token);
      match w {
        case Stopped => return Some(Finished(true)), NoReprint, log';
        case Silent => return Some(CutOff), NoReprint, log';
        case Ended(status) =>
          log' := Heard(log, status, Both(sheet, prevSheet), sheet, at, token);
          StepsSnoc(log, Answer(status), sheet.number, NumberOf(prevSheet));
          if status.videoDataError {
            return Some(Finished(false)), NoReprint, log';
          }
          if status.ready {
            return Some(AssertionFailed), NoReprint, log';
          }
          return None, status.reprint, log';
      }
    }

    /** An answer, entered in the log. */
    lemma Heard(log: seq<Entry>, status: PrintEnd, sheets: set<Sheet>, sheet: Sheet, at: JobSnapshot, token: StopToken)
      returns (log': seq<Entry>)
      requires printer.trace == at.trace + EventsOf(log)
      requires at.statuses == Polled(EventsOf(log)) + printer.statuses && at.ends == Answers(log) + ([status] + ends)
      requires at.left == None ==> token.left == None
      requires at.left.Some? ==> token.left.Some? && Looks(log) + 1 + token.left.value <= at.left.value
      requires AllFaithful(log, sheets, printer.reportedBlockSize)
      ensures log' == log + [Answer(status)] && Since(at, token, log')
      ensures AllFaithful(log', sheets, printer.reportedBlockSize)
    {
      hide EventsOf, Completed, Answers, Looks, Polled, Faithful;
      log' := log + [Answer(status)];
      LogSnoc(log, Answer(status));
      Assoc(Answers(log), [status], ends);
      assert EventsOf(log) + [] == EventsOf(log);
    }

    /** One turn of the loop of `writePage`. */
    method Pass(token: StopToken, page: BufferedPage, prev: BufferedPage?, reprint: ReprintStatus,
                ghost log: seq<Entry>, ghost sheet: Sheet, ghost prevSheet: Option<Sheet>, ghost at: JobSnapshot)
      returns (over: Option<Verdict>, reprint': ReprintStatus, ghost log': seq<Entry>)
      requires printer.Valid() && InHand(page, prev, sheet, prevSheet) && Since(at, token, log)
      requires AllFaithful(log, Both(sheet, prevSheet), printer.reportedBlockSize)
      requires Steps(log, sheet.number, NumberOf(prevSheet)) == Todo.Send(reprint == ReprintPrev && prevSheet != None)
      modifies this`ends, token, printer`trace, printer`cachedInfo, printer`statuses, printer.stream
      modifies page`buffer, page`gptr, page`egptr, page.videoStream
      modifies if prev != null then {prev} else {}
      modifies if prev != null && prev.videoStream != null then {prev.videoStream} else {}
      ensures printer.Valid() && InHand(page, prev, sheet, prevSheet) && Since(at, token, log')
      ensures AllFaithful(log', Both(sheet, prevSheet), printer.reportedBlockSize)
      ensures |ends| <= |old(ends)|
      ensures var t := Steps(log', sheet.number, NumberOf(prevSheet));
              if over.Some? then Tells(over.value, t, token)
              else
                && t == Todo.Send(reprint' == ReprintPrev && prevSheet != None)
                && (|ends| < |old(ends)| || (|ends| == |old(ends)| && reprint == ReprintPrev && reprint' == NoReprint))
      ensures over == Some(Finished(true)) && !token.Requested() && printer.reportedBlockSize > 0 ==>
                page.buffer == page.Complete()
    {
      hide EventsOf, Completed, AllFaithful, Both, Answers, Looks, Polled, Steps, Since;
      hide PacketsOf, Frames, AllWritable, SheetOf;
      reprint', log' := reprint, log;
      var stop := Stopping(token, log, at);
      if stop {
        return Some(Finished(true)), reprint', log';
      }
      var again := prev != null && reprint == ReprintPrev;
      assert again == (reprint == ReprintPrev && prevSheet != None);
      hide InHand;
      var v;
      v, log' := TryEither(token, page, prev, again, log, sheet, prevSheet, at);
      if v == Finished(true) {
        return if again then None else Some(v), NoReprint, log';
      }
      if v != Finished(false) {
        return Some(v), reprint', log';
      }
      over, reprint', log' := AfterFailure(token, log', sheet, prevSheet, at);
    }

    /** The two looks at the token before a try: the loop's own, and the one after the printer
        has been made ready. */
    method Stopping(token: StopToken, ghost log: seq<Entry>, ghost at: JobSnapshot) returns (stop: bool)
      requires Since(at, token, log)
      modifies token
      ensures stop ==> token.Requested()
      ensures old(token.Requested()) ==> stop
      ensures if stop then Since(at, token, log) else Looked(at, token, log)
    {
      stop := token.StopRequested();
      if !stop {
        stop := token.StopRequested();
      }
    }

    /** Sends `page`, and the page before it again when the printer asks for that, and only then.
        Whatever the printer does: when this returns true and no stop was requested, what went out whole
        are the reprints asked for and then this page once, each from its first byte to its last. */
    method WritePage(token: StopToken, page: BufferedPage, prev: BufferedPage?,
                     ghost sheet: Sheet, ghost prevSheet: Option<Sheet>, ghost at: JobSnapshot)
      returns (v: Verdict, ghost log: seq<Entry>)
      requires printer.Valid() && InHand(page, prev, sheet, prevSheet) && at == Now(token)
      modifies this`ends, token, printer`trace, printer`cachedInfo, printer`statuses, printer.stream
      modifies page`buffer, page`gptr, page`egptr, page.videoStream
      modifies if prev != null then {prev} else {}
      modifies if prev != null && prev.videoStream != null then {prev.videoStream} else {}
      ensures printer.Valid() && InHand(page, prev, sheet, prevSheet) && |ends| <= |old(ends)|
      ensures Since(at, token, log)
      ensures Tells(v, Steps(log, sheet.number, NumberOf(prevSheet)), token)
      ensures AllFaithful(log, Both(sheet, prevSheet), printer.reportedBlockSize)
      ensures v == Finished(true) && !token.Requested() ==>
                ReprintsThenPage(Completed(log), NumberOf(prevSheet), sheet.number)
      ensures v == Finished(true) && !token.Requested() && printer.reportedBlockSize > 0 ==>
                page.buffer == page.Complete()
    {
      hide EventsOf, Completed, AllFaithful, InHand, ReprintsThenPage, Both, PacketsOf, Frames, AllWritable;
      hide Answers, Looks, Polled, Since;
      log := [];
      SinceStart(at, token);
      NoneFaithful(Both(sheet, prevSheet), printer.reportedBlockSize);
      var reprint := NoReprint;
      while true
        invariant printer.Valid() && InHand(page, prev, sheet, prevSheet) && |ends| <= |old(ends)|
        invariant Since(at, token, log) && AllFaithful(log, Both(sheet, prevSheet), printer.reportedBlockSize)
        invariant Steps(log, sheet.number, NumberOf(prevSheet)) ==
                  Todo.Send(reprint == ReprintPrev && prevSheet != None)
        decreases |ends|, if reprint == ReprintPrev then 1 else 0
      {
        var over;
        over, reprint, log := Pass(token, page, prev, reprint, log, sheet, prevSheet, at);
        if over.Some? {
          PageOrder(log, sheet.number, NumberOf(prevSheet));
          return over.value, log;
        }
      }
    }

    // ----- the job

    /** How a call came out, by what was left to be done of the job. */
    ghost predicate TellsJob(v: Verdict, j: JobTodo, token: StopToken)
      reads this, printer, token
    {
      match j
      case AllOut => v == Finished(true)
      case Writing(_, t) => t != Out && Tells(v, t, token)
      case Ending(t) =>
        if t != Out then Tells(v, t, token)
        else (v == Finished(true) && token.Requested()) || (v == CutOff && ends == [])
    }

    /** Waits until the printer has accepted the last page, sending it again for as long as the printer
        asks for that. */
    method WaitLastPage(token: StopToken, page: BufferedPage, ghost sheet: Sheet, ghost at: JobSnapshot)
      returns (v: Verdict, ghost log: seq<Entry>)
      requires printer.Valid() && InHand(page, null, sheet, None) && at == Now(token)
      modifies this`ends, token, printer`trace, printer`cachedInfo, printer`statuses, printer.stream
      modifies page`buffer, page`gptr, page`egptr, page.videoStream
      ensures printer.Valid() && Since(at, token, log)
      ensures AllFaithful(log, {sheet}, printer.reportedBlockSize)
      ensures TellsJob(v, JobSteps(Ending(Out), log, sheet.number + 1), token)
      ensures old(token.Requested()) ==> log == [] && token.Requested() && v == Finished(true)
      ensures v == Finished(true) && !token.Requested() ==>
                && OnlyReprints(Completed(log), Some(sheet.number)) && |log| == 2 * |Answers(log)| - 1
                && log[|log| - 1].Answer? && log[|log| - 1].status.reprint == NoReprint
                && !log[|log| - 1].status.videoDataError
    {
      hide EventsOf, Completed, AllFaithful, InHand, PacketsOf, Frames, AllWritable, ReprintsThenPage, OnlyReprints;
      hide Answers, Looks, Polled, Since, JobStep;
      log := [];
      SinceStart(at, token);
      NoneFaithful({sheet}, printer.reportedBlockSize);
      ghost var n := sheet.number + 1;
      while true
        invariant printer.Valid() && InHand(page, null, sheet, None)
        invariant Since(at, token, log) && AllFaithful(log, {sheet}, printer.reportedBlockSize)
        invariant old(token.Requested()) ==> log == [] && token.Requested()
        invariant var j := JobSteps(Ending(Out), log, n);
                  j == Ending(Out) || (token.Requested() && TellsJob(Finished(true), j, token))
        decreases |ends|
      {
        var over;
        over, log := AwaitLastEnd(token, log, sheet, at);
        if over.Some? {
          LastOrder(log, n);
          return over.value, log;
        }
        v, log := Resend(token, page, log, sheet, at);
        if v != Finished(true) {
          return;
        }
      }
    }

    /** How waiting for the last page ends; `None` when it has to be sent again. */
    method AwaitLastEnd(token: StopToken, ghost log: seq<Entry>, ghost sheet: Sheet, ghost at: JobSnapshot)
      returns (over: Option<Verdict>, ghost log': seq<Entry>)
      requires Since(at, token, log) && AllFaithful(log, {sheet}, printer.reportedBlockSize)
      requires var j := JobSteps(Ending(Out), log, sheet.number + 1);
               j == Ending(Out) || (token.Requested() && TellsJob(Finished(true), j, token))
      modifies this`ends, token
      ensures Since(at, token, log') && AllFaithful(log', {sheet}, printer.reportedBlockSize)
      ensures old(token.Requested()) ==> over == Some(Finished(true)) && token.Requested() && log' == log
      ensures over == None ==>
                |ends| < |old(ends)| && JobSteps(Ending(Out), log', sheet.number + 1) == Ending(Todo.Send(false))
      ensures over.Some? ==> TellsJob(over.value, JobSteps(Ending(Out), log', sheet.number + 1), token)
    {
      hide AllFaithful, EventsOf, Completed, Answers, Looks, Polled, JobSteps;
      log' := log;
      var stop := token.StopRequested();
      if stop {
        return Some(Finished(true)), log';
      }
      var w := WaitPrintEnd(token);
      match w {
        case Stopped => return Some(Finished(true)), log';
        case Silent => return Some(CutOff), log';
        case Ended(status) =>
          log' := Heard(log, status, {sheet}, sheet, at, token);
          JobStepsSnoc(Ending(Out), log, Answer(status), sheet.number + 1);
          if status.videoDataError {
            return Some(Finished(false)), log';
          }
          return if status.reprint == NoReprint then Some(Finished(true)) else None, log';
      }
    }

    /** The last page once more. */
    method Resend(token: StopToken, page: BufferedPage, ghost log: seq<Entry>, ghost sheet: Sheet,
                  ghost at: JobSnapshot)
      returns (v: Verdict, ghost log': seq<Entry>)
      requires printer.Valid() && InHand(page, null, sheet, None) && Since(at, token, log)
      requires AllFaithful(log, {sheet}, printer.reportedBlockSize)
      requires JobSteps(Ending(Out), log, sheet.number + 1) == Ending(Todo.Send(false))
      modifies this`ends, token, printer`trace, printer`cachedInfo, printer`statuses, printer.stream
      modifies page`buffer, page`gptr, page`egptr, page.videoStream
      ensures printer.Valid() && InHand(page, null, sheet, None) && Since(at, token, log')
      ensures AllFaithful(log', {sheet}, printer.reportedBlockSize) && |ends| <= |old(ends)|
      ensures var j := JobSteps(Ending(Out), log', sheet.number + 1); j.Ending? && Tells(v, j.todo, token)
    {
      hide EventsOf, Completed, AllFaithful, InHand, PacketsOf, Frames, AllWritable, Between, JobStep, JobSteps, Steps;
      ghost var now := Now(token);
      ghost var more;
      v, more := WritePage(token, page, null, sheet, None, now);
      BetweenJoin(at, log, now, more, Now(token));
      assert Both(sheet, None) == {sheet};
      JoinFaithful(log, more, {sheet}, printer.reportedBlockSize);
      JobStepsAppend(Ending(Out), log, more, sheet.number + 1);
      JobPage(more, None, sheet.number + 1);
      log' := log + more;
    }

    /** The page kept for reprints is the one before page `i`, complete. */
    ghost predicate Kept(sources: seq<Source>, i: nat, prevPage: BufferedPage)
      reads prevPage, prevPage.videoStream
      requires i <= |sources| && prevPage.Valid()
    {
      i > 0 ==> SheetOf(prevPage) == SheetFor(sources, i - 1, printer.reportedBlockSize)
    }

    /** The pages before the i-th are out, and nothing of that one; or a stop ends the job. */
    ghost predicate Ready(sources: seq<Source>, i: nat, prevPage: BufferedPage, log: seq<Entry>, token: StopToken)
      reads this, printer, token, prevPage, prevPage.videoStream
      requires 0 < |sources| && i <= |sources| && prevPage.Valid()
    {
      var j := JobSteps(JobStart, log, |sources|);
      || (token.Requested() && TellsJob(Finished(true), j, token))
      || (Kept(sources, i, prevPage) && j == if i < |sources| then Writing(i, Todo.Send(false)) else Ending(Out))
    }

    /** A page of the input, with its compressed stream behind it. */
    method NewPage(sources: seq<Source>, i: nat) returns (page: BufferedPage)
      requires i < |sources|
      ensures page.Valid() && SheetOf(page) == SheetFor(sources, i, printer.reportedBlockSize)
      ensures fresh(page) && page.videoStream != null && fresh(page.videoStream)
    {
      var ss := new ByteStream(sources[i].video);
      page := new BufferedPage(i, sources[i].params, ss, 4096);
    }

    /** One page: it is sent, and then kept for reprints. */
    method PrintOne(token: StopToken, sources: seq<Source>, i: nat, prevPage: BufferedPage,
                    ghost log: seq<Entry>, ghost at: JobSnapshot)
      returns (v: Verdict, ghost log': seq<Entry>)
      requires i < |sources| && printer.Valid() && prevPage.Valid() && prevPage.videoStream == null
      requires Kept(sources, i, prevPage) && JobSteps(JobStart, log, |sources|) == Writing(i, Todo.Send(false))
      requires Since(at, token, log)
      requires AllFaithful(log, SheetsOf(sources, printer.reportedBlockSize), printer.reportedBlockSize)
      modifies this`ends, token, printer`trace, printer`cachedInfo, printer`statuses, printer.stream, prevPage
      ensures printer.Valid() && prevPage.Valid() && Since(at, token, log')
      ensures AllFaithful(log', SheetsOf(sources, printer.reportedBlockSize), printer.reportedBlockSize)
      ensures if v == Finished(true) then Ready(sources, i + 1, prevPage, log', token)
              else TellsJob(v, JobSteps(JobStart, log', |sources|), token)
    {
      hide EventsOf, Completed, AllFaithful, SheetsOf, InHand, Between, JobStep, JobSteps, Steps;
      hide PacketsOf, Frames, AllWritable;
      var currPage := NewPage(sources, i);
      v, log' := SendNext(token, sources, i, currPage, prevPage, log, at);
      if v == Finished(true) {
        Keep(currPage, prevPage);
      }
    }

    /** `prevPage = std::move(currPage)`: a page read to its end can be sent again from the copy. */
    method Keep(currPage: BufferedPage, prevPage: BufferedPage)
      requires currPage.Valid() && prevPage.Valid() && prevPage.videoStream == null && prevPage != currPage
      modifies currPage, prevPage
      ensures prevPage.Valid()
      ensures old(printer.reportedBlockSize > 0 ==> currPage.buffer == currPage.Complete()) ==>
                SheetOf(prevPage) == old(SheetOf(currPage))
    {
      prevPage.MoveFrom(currPage);
    }

    method SendNext(token: StopToken, sources: seq<Source>, i: nat, currPage: BufferedPage, prevPage: BufferedPage,
                    ghost log: seq<Entry>, ghost at: JobSnapshot)
      returns (v: Verdict, ghost log': seq<Entry>)
      requires i < |sources| && printer.Valid()
      requires prevPage.Valid() && prevPage.videoStream == null && prevPage != currPage
      requires currPage.Valid() && SheetOf(currPage) == SheetFor(sources, i, printer.reportedBlockSize)
      requires Kept(sources, i, prevPage) && JobSteps(JobStart, log, |sources|) == Writing(i, Todo.Send(false))
      requires Since(at, token, log)
      requires AllFaithful(log, SheetsOf(sources, printer.reportedBlockSize), printer.reportedBlockSize)
      modifies this`ends, token, printer`trace, printer`cachedInfo, printer`statuses, printer.stream, prevPage
      modifies currPage`buffer, currPage`gptr, currPage`egptr, currPage.videoStream
      ensures printer.Valid() && prevPage.Valid() && currPage.Valid() && Since(at, token, log')
      ensures AllFaithful(log', SheetsOf(sources, printer.reportedBlockSize), printer.reportedBlockSize)
      ensures SheetOf(currPage) == old(SheetOf(currPage))
      ensures var j := JobSteps(JobStart, log', |sources|);
              if v == Finished(true) && !token.Requested() then
                && j == (if i + 1 < |sources| then Writing(i + 1, Todo.Send(false)) else Ending(Out))
                && (printer.reportedBlockSize > 0 ==> currPage.buffer == currPage.Complete())
              else TellsJob(v, j, token)
    {
      hide EventsOf, Completed, AllFaithful, SheetsOf, Between, JobStep, JobSteps, Steps;
      hide PacketsOf, Frames, AllWritable;
      ghost var bs, n, now := printer.reportedBlockSize, |sources|, Now(token);
      ghost var sheet := SheetFor(sources, i, bs);
      ghost var prevSheet := if i == 0 then None else Some(SheetFor(sources, i - 1, bs));
      ghost var more;
      v, more := WritePage(token, currPage, if i == 0 then null else prevPage, sheet, prevSheet, now);
      SheetsIn(sources, i, bs);
      FaithfulIn(more, Both(sheet, prevSheet), SheetsOf(sources, bs), bs);
      BetweenJoin(at, log, now, more, Now(token));
      JoinFaithful(log, more, SheetsOf(sources, bs), bs);
      JobStepsAppend(JobStart, log, more, n);
      JobPage(more, Some(i), n);
      log' := log + more;
    }

    /** A look at the token between two pages. */
    method Look(token: StopToken, ghost log: seq<Entry>, ghost at: JobSnapshot) returns (stop: bool)
      requires Since(at, token, log)
      modifies token
      ensures Since(at, token, log) && (stop <==> old(token.Requested())) && (stop ==> token.Requested())
    {
      hide EventsOf, Completed, Answers, Looks, Polled;
      stop := token.StopRequested();
    }

    /** The page loop of the program: every page of the job, then the wait for the last one. All that
        is done is what the job and the printer's answers ask for. When it ends well and no stop was
        requested, every page went out whole, in order, and again only when the printer asked for it,
        and the printer has accepted the last. */
    method PrintPages(token: StopToken, sources: seq<Source>, noParams: PageParams, ghost at: JobSnapshot)
      returns (v: Verdict, ghost log: seq<Entry>)
      requires printer.Valid() && at == Now(token)
      modifies this`ends, token, printer`trace, printer`cachedInfo, printer`statuses, printer.stream
      ensures printer.Valid() && Since(at, token, log)
      ensures AllFaithful(log, SheetsOf(sources, printer.reportedBlockSize), printer.reportedBlockSize)
      ensures if sources == [] then v == Finished(true) && log == []
              else TellsJob(v, JobSteps(JobStart, log, |sources|), token)
      ensures v == Finished(true) && !token.Requested() && sources != [] ==>
                JobSteps(JobStart, log, |sources|) == AllOut
      ensures v == Finished(true) && !token.Requested() ==> InOrder(Completed(log), |sources|)
    {
      hide EventsOf, Completed, AllFaithful, InHand, PacketsOf, Frames, AllWritable, SheetsOf, Between;
      hide JobStep, Steps, JobSteps;
      log := [];
      LogNone();
      NoSteps(|sources|);
      SinceStart(at, token);
      NoneFaithful(SheetsOf(sources, printer.reportedBlockSize), printer.reportedBlockSize);
      var prevPage := new BufferedPage(0, noParams, null, 4096);
      var i: nat := 0;
      while true
        invariant i <= |sources| && printer.Valid() && (sources == [] ==> log == [])
        invariant fresh(prevPage) && prevPage.Valid() && prevPage.videoStream == null && Since(at, token, log)
        invariant AllFaithful(log, SheetsOf(sources, printer.reportedBlockSize), printer.reportedBlockSize)
        invariant sources != [] ==> Ready(sources, i, prevPage, log, token)
        invariant i == 0 ==> log == []
        decreases |sources| - i
      {
        var stop := Look(token, log, at);
        if stop || i == |sources| {
          break;
        }
        v, log := PrintOne(token, sources, i, prevPage, log, at);
        if v != Finished(true) {
          return;
        }
        i := i + 1;
      }
      if i == 0 {
        return Finished(true), log;
      }
      v, log := PrintLast(token, sources, i, prevPage, log, at);
    }

    /** The end of the program: the wait for the last page. */
    method PrintLast(token: StopToken, sources: seq<Source>, i: nat, prevPage: BufferedPage,
                     ghost log: seq<Entry>, ghost at: JobSnapshot)
      returns (v: Verdict, ghost log': seq<Entry>)
      requires 0 < i <= |sources| && printer.Valid() && prevPage.Valid() && prevPage.videoStream == null
      requires Ready(sources, i, prevPage, log, token) && (token.Requested() || i == |sources|)
      requires Since(at, token, log)
      requires AllFaithful(log, SheetsOf(sources, printer.reportedBlockSize), printer.reportedBlockSize)
      modifies this`ends, token, printer`trace, printer`cachedInfo, printer`statuses, printer.stream
      modifies prevPage`buffer, prevPage`gptr, prevPage`egptr
      ensures printer.Valid() && Since(at, token, log')
      ensures AllFaithful(log', SheetsOf(sources, printer.reportedBlockSize), printer.reportedBlockSize)
      ensures TellsJob(v, JobSteps(JobStart, log', |sources|), token)
      ensures v == Finished(true) && !token.Requested() ==>
                JobSteps(JobStart, log', |sources|) == AllOut && InOrder(Completed(log'), |sources|)
    {
      hide EventsOf, Completed, AllFaithful, InOrder, PacketsOf, Frames, AllWritable, SheetsOf, Between;
      hide JobStep, JobSteps, OnlyReprints;
      ghost var bs, sheet, now := printer.reportedBlockSize, SheetOf(prevPage), Now(token);
      ghost var stopped := token.Requested();
      ghost var more;
      v, more := WaitLastPage(token, prevPage, sheet, now);
      BetweenJoin(at, log, now, more, Now(token));
      if stopped {
        NoneFaithful(SheetsOf(sources, bs), bs);
        assert log + [] == log;
      } else {
        SheetsIn(sources, i - 1, bs);
        FaithfulIn(more, {sheet}, SheetsOf(sources, bs), bs);
        JobStepsAppend(JobStart, log, more, |sources|);
        JobOrder(log + more, |sources|);
      }
      JoinFaithful(log, more, SheetsOf(sources, bs), bs);
      log' := log + more;
    }
  }

  lemma NoSteps(n: nat)
    ensures n > 0 ==> JobSteps(JobStart, [], n) == JobStart
  {
  }

  lemma SheetsIn(sources: seq<Source>, i: nat, blockSize: nat)
    requires i < |sources|
    ensures SheetFor(sources, i, blockSize) in SheetsOf(sources, blockSize)
    ensures i > 0 ==> SheetFor(sources, i - 1, blockSize) in SheetsOf(sources, blockSize)
  {
  }

  lemma FaithfulIn(log: seq<Entry>, some: set<Sheet>, all: set<Sheet>, blockSize: nat)
    requires AllFaithful(log, some, blockSize) && some <= all
    ensures AllFaithful(log, all, blockSize)
  {
    forall i | 0 <= i < |log| ensures FaithfulToSome(log[i], all, blockSize) {
      assert FaithfulToSome(log[i], some, blockSize);
      if log[i].Attempt? {
        var sheet :| sheet in some && Faithful(log[i], sheet, blockSize);
        assert sheet in all;
      }
    }
  }

  lemma JoinFaithful(a: seq<Entry>, b: seq<Entry>, sheets: set<Sheet>, blockSize: nat)
    requires AllFaithful(a, sheets, blockSize) && AllFaithful(b, sheets, blockSize)
    ensures AllFaithful(a + b, sheets, blockSize)
  {
    hide FaithfulToSome;
  }

  lemma AskedPolled(es: seq<Event>)
    ensures Polled([AskInfo] + es) == Polled(es) && Polled([] + es) == Polled(es)
  {
    hide Polled;
    LogNone();
    PolledSnoc([], AskInfo);
    PolledAppend([AskInfo], es);
    assert [] + [AskInfo] == [AskInfo] && [] + es == es;
  }

  lemma NoneFaithful(sheets: set<Sheet>, blockSize: nat)
    ensures AllFaithful([], sheets, blockSize)
  {
  }

  lemma NoReprints(pages: seq<nat>)
    ensures OnlyReprints(pages, None) ==> pages == []
  {
    if pages != [] {
      var first := pages[0];
      assert OnlyReprints(pages, None) ==> None == Some(first);
    }
  }
}

/** What a reader of the printer's packets gets out of them. */
module PrintedPages {
  import opened Bytes
  import opened Transmissions
  import opened Encoder
  import opened Depacketising
  import opened PrintJobs
  import opened Jobs

  /** Every page that went out whole, the first time or again, decodes to its raster. */
  lemma PrintedPageDecodes(a: Entry, sheet: Sheet, page: Page, blockSize: nat)
    requires a.Attempt? && Faithful(a, sheet, blockSize) && a.complete
    requires 1 <= page.lineSize <= 0xffff && sheet.video == EncodePage(page.raster, page.lineSize, page.lines)
    requires sheet.params.imageLineSize == page.lineSize && sheet.params.imageLines == page.lines % 0x1_0000
    ensures DecodeJob(PacketsOf(a.sent)) == Outcome([page])
  {
    hide Transmission, EncodePage, DecodeJob, Outcome, Carries, SentPage.All;
    var s := TransmissionCarries([], a.sent, sheet.params, page, blockSize);
    assert [] + a.sent == a.sent;
    assert [s][1..] == [] && s.All() + [] == s.All();
    assert JobPackets([s]) == s.All() + JobPackets([s][1..]);
    assert AllCarried([s], [page]);
    JobRoundTrip([s], [page]);
  }

  /** The page of the job a source of the print loop stands for. */
  ghost predicate SourceOf(source: Source, page: Page) {
    && Sendable(page) && source.video == EncodePage(page.raster, page.lineSize, page.lines)
    && source.params.imageLineSize == page.lineSize && source.params.imageLines == page.lines
  }

  /** All that the print loop sent whole, reprints included: each decodes to the page of the job
      that the log says it is. */
  lemma PrintedJobDecodes(log: seq<Entry>, sources: seq<Source>, pages: seq<Page>, blockSize: nat)
    requires blockSize > 0 && |sources| == |pages|
    requires forall i | 0 <= i < |pages| :: SourceOf(sources[i], pages[i])
    requires AllFaithful(log, SheetsOf(sources, blockSize), blockSize)
    ensures forall i | 0 <= i < |log| && log[i].Attempt? && log[i].complete ::
              log[i].page < |pages| && DecodeJob(PacketsOf(log[i].sent)) == Ok([pages[log[i].page]])
  {
    hide Faithful, EncodePage, DecodeJob, Outcome, Sendable;
    forall i | 0 <= i < |log| && log[i].Attempt? && log[i].complete
      ensures log[i].page < |pages| && DecodeJob(PacketsOf(log[i].sent)) == Ok([pages[log[i].page]])
    {
      assert FaithfulToSome(log[i], SheetsOf(sources, blockSize), blockSize);
      var sheet :| sheet in SheetsOf(sources, blockSize) && Faithful(log[i], sheet, blockSize);
      FaithfulPage(log[i], sheet, blockSize);
      var page := pages[sheet.number];
      assert SourceOf(sources[sheet.number], page);
      SizesFit(page);
      PrintedPageDecodes(log[i], sheet, page, blockSize);
      OutcomeIsJob([page]);
      assert AllSendable([page]);
    }
  }

  lemma FaithfulPage(a: Entry, sheet: Sheet, blockSize: nat)
    requires a.Attempt? && Faithful(a, sheet, blockSize) && a.complete
    ensures a.page == sheet.number
  {
    hide Transmission;
  }

  lemma SizesFit(page: Page)
    requires Sendable(page)
    ensures 1 <= page.lineSize <= 0xffff && page.lines % 0x1_0000 == page.lines
  {
  }
}
