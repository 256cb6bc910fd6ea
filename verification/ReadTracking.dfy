/** Tracked PDF reading: dwell times per page, completion, and the receipt at the end. */
module ReadTracking {
  import opened Sequences

  const THRESHOLD := 10

  datatype Session = Session(
    userId: string, documentId: string, version: int, totalPages: int, minSecondsPerPage: int, completion: Completion)

  datatype Completion = Open | Complete | Incomplete

  datatype PageRow = PageRow(seconds: int, reachedThreshold: bool)

  datatype Receipt = Receipt(userId: string, documentId: string, version: int, source: string)

  /** Receipts are unique by user, document and version. */
  type ReceiptKey = (string, string, int)

  function KeyOf(r: Receipt): ReceiptKey {
    (r.userId, r.documentId, r.version)
  }

  /** The progress shown for a session; without one, nothing is complete and nothing is missing. */
  datatype Progress = Progress(
    totalPages: int, completedPages: set<int>, missingPages: seq<int>, pageSeconds: map<int, int>, isComplete: bool)

  datatype Tables = Tables(sessions: map<string, Session>, pages: map<(string, int), PageRow>,
                           receipts: map<ReceiptKey, Receipt>)

  const NO_PROGRESS := Progress(0, {}, [], map[], false)

  // --- What the tables say ---

  function CompletedPages(t: Tables, id: string): set<int> {
    set key | key in t.pages && key.0 == id && t.pages[key].reachedThreshold :: key.1
  }

  function PageSeconds(t: Tables, id: string): map<int, int> {
    map key | key in t.pages && key.0 == id :: key.1 := t.pages[key].seconds
  }

  /** The pages from 1 to `total` that are not completed, in order. */
  function MissingPages(total: int, completed: set<int>): (missing: seq<int>)
    ensures forall p :: p in missing <==> 1 <= p <= total && p !in completed
    decreases total
  {
    if total < 1 then []
    else MissingPages(total - 1, completed) + (if total in completed then [] else [total])
  }

  function ProgressOf(t: Tables, id: string): Option<Progress> {
    if id !in t.sessions then None
    else
      var total, completed := t.sessions[id].totalPages, CompletedPages(t, id);
      var missing := MissingPages(total, completed);
      Some(Progress(total, completed, missing, PageSeconds(t, id), |missing| == 0 && total > 0))
  }

  function AtLeastZero(n: int): nat {
    if n < 0 then 0 else n
  }

  function Started(t: Tables, id: string, s: Session): Tables {
    t.(sessions := t.sessions[id := s.(completion := Open)])
  }

  /** The seconds the next dwell is added to: what the session's progress shows for the page. */
  function CurrentSeconds(t: Tables, id: string, page: int): int {
    if id in t.sessions && (id, page) in t.pages then t.pages[(id, page)].seconds else 0
  }

  /** The row a dwell writes is an absolute number, made from what was read before. */
  function Written(t: Tables, id: string, page: int, current: int, seconds: int): Tables {
    var updated := AtLeastZero(current + AtLeastZero(seconds));
    t.(pages := t.pages[(id, page) := PageRow(updated, updated >= THRESHOLD)])
  }

  function Dwelled(t: Tables, id: string, page: int, seconds: int): Tables {
    Written(t, id, page, CurrentSeconds(t, id, page), seconds)
  }

  function WithCompletion(t: Tables, id: string, completion: Completion): Tables {
    if id in t.sessions then t.(sessions := t.sessions[id := t.sessions[id].(completion := completion)]) else t
  }

  function ReceiptFor(t: Tables, id: string, source: string): Option<Receipt> {
    match ProgressOf(t, id)
    case None => None
    case Some(progress) =>
      if !progress.isComplete then None
      else Some(Receipt(t.sessions[id].userId, t.sessions[id].documentId, t.sessions[id].version, source))
  }

  /** Closing a session: as complete with the receipt, or as incomplete. */
  function Closed(t: Tables, id: string, receipt: Option<Receipt>): Tables {
    match receipt
    case None => WithCompletion(t, id, Incomplete)
    case Some(r) =>
      var completed := WithCompletion(t, id, Complete);
      completed.(receipts := completed.receipts[KeyOf(r) := r])
  }

  function Finalized(t: Tables, id: string, source: string): Tables {
    Closed(t, id, ReceiptFor(t, id, source))
  }

  class PdfReadTrackingService {
    var tables: Tables

    constructor ()
      ensures tables == Tables(map[], map[], map[])
    {
      tables := Tables(map[], map[], map[]);
    }

    method Start(id: string, session: Session)
      modifies this
      ensures tables == Started(old(tables), id, session)
    {
      tables := tables.(sessions := tables.sessions[id := session.(completion := Open)]);
    }

    method GetProgress(id: string) returns (progress: Progress)
      ensures id !in tables.sessions ==> progress == Progress(0, {}, [], map[], false)
      ensures progress == (match ProgressOf(tables, id) case None => NO_PROGRESS case Some(p) => p)
    {
      if id !in tables.sessions {
        return NO_PROGRESS;
      }
      var total, completed := tables.sessions[id].totalPages, CompletedPages(tables, id);
      var missing: seq<int> := [];
      var page := 1;
      while page <= total
        invariant 1 <= page && (page <= total + 1 || page == 1)
        invariant missing == MissingPages(page - 1, completed)
      {
        if page !in completed {
          missing := missing + [page];
        }
        page := page + 1;
      }
      NothingMissingBelowOne(total, completed);
      progress := Progress(total, completed, missing, PageSeconds(tables, id), |missing| == 0 && total > 0);
    }

    method UpdatePageProgress(id: string, pageNumber: int, accumulated: int, reached: bool)
      modifies this
      ensures tables == old(tables).(pages := old(tables).pages[(id, pageNumber) := PageRow(accumulated, reached)])
    {
      tables := tables.(pages := tables.pages[(id, pageNumber) := PageRow(accumulated, reached)]);
    }

    /** One call that no other one overlaps. */
    method RecordPageDwell(id: string, pageNumber: int, dwellSeconds: int) returns (progress: Progress)
      modifies this
      ensures tables == Dwelled(old(tables), id, pageNumber, dwellSeconds)
      ensures progress == (match ProgressOf(tables, id) case None => NO_PROGRESS case Some(p) => p)
    {
      var shown := GetProgress(id);
      ShownSeconds(tables, id, pageNumber);
      var current := if pageNumber in shown.pageSeconds then shown.pageSeconds[pageNumber] else 0;
      var updated := AtLeastZero(current + AtLeastZero(dwellSeconds));
      UpdatePageProgress(id, pageNumber, updated, updated >= THRESHOLD);
      progress := GetProgress(id);
    }

    method Finalize(id: string, source: string) returns (receipt: Option<Receipt>)
      modifies this
      ensures receipt == ReceiptFor(old(tables), id, source)
      ensures tables == Finalized(old(tables), id, source)
    {
      var progress := GetProgress(id);
      if id !in tables.sessions || !progress.isComplete {
        tables := WithCompletion(tables, id, Incomplete);
        return None;
      }
      var session := tables.sessions[id];
      tables := WithCompletion(tables, id, Complete);
      var issued := Receipt(session.userId, session.documentId, session.version, source);
      tables := tables.(receipts := tables.receipts[KeyOf(issued) := issued]);
      receipt := Some(issued);
    }
  }

  lemma NothingMissingBelowOne(total: int, completed: set<int>)
    ensures total < 1 ==> MissingPages(total, completed) == MissingPages(0, completed)
  {
  }

  lemma ShownSeconds(t: Tables, id: string, page: int)
    ensures page in PageSeconds(t, id) <==> (id, page) in t.pages
    ensures page in PageSeconds(t, id) ==> PageSeconds(t, id)[page] == t.pages[(id, page)].seconds
  {
    if (id, page) in t.pages {
      assert (id, page).0 == id && (id, page).1 == page;
    }
  }

  // --- Overlapping calls on any number of sessions ---

  /** What a call has read and not yet used. */
  datatype Call =
    | Dwelling(id: string, page: int, seconds: int, current: int, after: nat)
    | Finalizing(id: string, receipt: Option<Receipt>)

  /** One write of a dwell, and how many of them there had been when its call read. */
  datatype Write = Write(id: string, page: int, seconds: int, after: nat)

  datatype System = System(tables: Tables, calls: seq<Option<Call>>, written: seq<Write>)

  /** Reading and writing are separate accesses to the database, without a transaction around them. */
  datatype Step =
    | Start(id: string, session: Session)
    | ReadForDwell(call: nat, id: string, page: int, seconds: int)
    | ReadForFinalize(call: nat, id: string, source: string)
    | Finish(call: nat)

  function FinishCall(sys: System, call: Call): System {
    match call
    case Dwelling(id, page, seconds, current, after) =>
      sys.(tables := Written(sys.tables, id, page, current, seconds),
           written := sys.written + [Write(id, page, seconds, after)])
    case Finalizing(id, receipt) => sys.(tables := Closed(sys.tables, id, receipt))
  }

  function Take(sys: System, step: Step): System {
    match step
    case Start(id, session) => sys.(tables := Started(sys.tables, id, session))
    case ReadForDwell(c, id, page, seconds) =>
      if c >= |sys.calls| then sys
      else
        var current := CurrentSeconds(sys.tables, id, page);
        sys.(calls := sys.calls[c := Some(Dwelling(id, page, seconds, current, |sys.written|))])
    case ReadForFinalize(c, id, source) =>
      if c >= |sys.calls| then sys
      else sys.(calls := sys.calls[c := Some(Finalizing(id, ReceiptFor(sys.tables, id, source)))])
    case Finish(c) =>
      if c >= |sys.calls| || sys.calls[c].None? then sys
      else FinishCall(sys, sys.calls[c].value).(calls := sys.calls[c := None])
  }

  /** A call that nothing comes between does what `RecordPageDwell` or `Finalize` does. */
  lemma UninterruptedCall(sys: System, c: nat, id: string, page: int, seconds: int, source: string)
    requires c < |sys.calls|
    ensures Take(Take(sys, ReadForDwell(c, id, page, seconds)), Finish(c)).tables
            == Dwelled(sys.tables, id, page, seconds)
    ensures Take(Take(sys, ReadForFinalize(c, id, source)), Finish(c)).tables == Finalized(sys.tables, id, source)
  {
  }

  function Run(sys: System, steps: seq<Step>): System
    decreases |steps|
  {
    if steps == [] then sys else Take(Run(sys, steps[..|steps| - 1]), steps[|steps| - 1])
  }

  predicate IsFor(w: Write, id: string, page: int) {
    w.id == id && w.page == page
  }

  /** The non-negative dwells written for one page of one session, added up. */
  function DwellSum(written: seq<Write>, id: string, page: int): nat
    decreases |written|
  {
    if written == [] then 0
    else
      var last := written[|written| - 1];
      DwellSum(written[..|written| - 1], id, page) + (if IsFor(last, id, page) then AtLeastZero(last.seconds) else 0)
  }

  /** Session ids are issued once. */
  ghost predicate NeverRestarted(steps: seq<Step>, id: string) {
    forall i :: 0 <= i < |steps| && steps[i].Start? ==> steps[i].id != id
  }

  /** A session just started: it is known, nothing has been recorded for it and no call is about it. */
  ghost predicate JustStarted(sys: System, id: string) {
    && id in sys.tables.sessions && (forall page :: (id, page) !in sys.tables.pages)
    && sys.written == []
    && forall c :: 0 <= c < |sys.calls| && sys.calls[c].Some? ==> sys.calls[c].value.id != id
  }

  ghost predicate PageFits(t: Tables, id: string, page: int, seconds: nat) {
    if (id, page) in t.pages then t.pages[(id, page)] == PageRow(seconds, seconds >= THRESHOLD) else seconds == 0
  }

  /** Between a call's reading of this page and its write, no other call has written seconds to the page. */
  ghost predicate NoneBetween(written: seq<Write>, id: string, page: int) {
    forall i :: 0 <= i < |written| && IsFor(written[i], id, page) ==>
        NoneSince(written[..i], written[i].after, id, page)
  }

  ghost predicate NoneSince(written: seq<Write>, after: nat, id: string, page: int) {
    forall j :: after <= j < |written| && IsFor(written[j], id, page) ==> written[j].seconds <= 0
  }

  // --- Seconds are the sum, exactly without such a write ---

  lemma {:induction false} SumGrows(written: seq<Write>, n: nat, id: string, page: int)
    requires n <= |written|
    ensures DwellSum(written[..n], id, page) <= DwellSum(written, id, page)
    ensures DwellSum(written[..n], id, page) == DwellSum(written, id, page) <==> NoneSince(written, n, id, page)
    decreases |written|
  {
    if n == |written| {
      assert written[..n] == written;
    } else {
      var front, last := written[..|written| - 1], written[|written| - 1];
      SumGrows(front, n, id, page);
      assert front[..n] == written[..n];
      if NoneSince(written, n, id, page) {
        assert forall j :: 0 <= j < |front| ==> front[j] == written[j];
      }
      if NoneSince(front, n, id, page) && (IsFor(last, id, page) ==> last.seconds <= 0) {
        assert forall j :: 0 <= j < |front| ==> front[j] == written[j];
      }
    }
  }

  /** What a call has read of the page is the sum of the writes up to then. */
  ghost predicate CallFits(call: Call, written: seq<Write>, id: string, page: int) {
    call.Dwelling? && call.id == id && call.page == page ==>
      call.after <= |written| && call.current == DwellSum(written[..call.after], id, page)
  }

  /** As long as nothing was lost. */
  ghost predicate Fits(sys: System, id: string, page: int) {
    && id in sys.tables.sessions
    && PageFits(sys.tables, id, page, DwellSum(sys.written, id, page))
    && forall c :: 0 <= c < |sys.calls| && sys.calls[c].Some? ==> CallFits(sys.calls[c].value, sys.written, id, page)
  }

  lemma CallStillFits(call: Call, written: seq<Write>, more: Write, id: string, page: int)
    requires CallFits(call, written, id, page)
    ensures CallFits(call, written + [more], id, page)
  {
    if call.Dwelling? && call.id == id && call.page == page {
      assert (written + [more])[..call.after] == written[..call.after];
    }
  }

  lemma SumOfOneMore(written: seq<Write>, w: Write, id: string, page: int)
    ensures DwellSum(written + [w], id, page)
            == DwellSum(written, id, page) + (if IsFor(w, id, page) then AtLeastZero(w.seconds) else 0)
  {
    assert (written + [w])[..|written|] == written;
  }

  lemma NoneBetweenOneMore(written: seq<Write>, w: Write, id: string, page: int)
    ensures NoneBetween(written + [w], id, page) <==>
            NoneBetween(written, id, page) && (IsFor(w, id, page) ==> NoneSince(written, w.after, id, page))
  {
    var all := written + [w];
    assert all[..|written|] == written && all[|written|] == w;
    forall i | 0 <= i < |written| ensures all[i] == written[i] && all[..i] == written[..i] {
    }
  }

  /** A dwell's write keeps the sum exactly if no seconds were written to its page since it was read. */
  lemma WriteFits(sys: System, c: nat, id: string, page: int)
    requires Fits(sys, id, page) && c < |sys.calls| && sys.calls[c].Some? && sys.calls[c].value.Dwelling?
    ensures var call, next := sys.calls[c].value, Take(sys, Finish(c));
            && next.written == sys.written + [Write(call.id, call.page, call.seconds, call.after)]
            && (PageFits(next.tables, id, page, DwellSum(next.written, id, page)) <==>
                (call.id == id && call.page == page ==> NoneSince(sys.written, call.after, id, page)))
  {
    var call := sys.calls[c].value;
    SumOfOneMore(sys.written, Write(call.id, call.page, call.seconds, call.after), id, page);
    if call.id == id && call.page == page {
      SumGrows(sys.written, call.after, id, page);
    }
  }

  lemma FinishKeepsCalls(sys: System, c: nat, id: string, page: int)
    requires Fits(sys, id, page)
    ensures var next := Take(sys, Finish(c));
            && id in next.tables.sessions
            && forall k :: 0 <= k < |next.calls| && next.calls[k].Some? ==>
                 CallFits(next.calls[k].value, next.written, id, page)
  {
    var next := Take(sys, Finish(c));
    if next.written != sys.written {
      forall k | 0 <= k < |next.calls| && next.calls[k].Some?
        ensures CallFits(next.calls[k].value, next.written, id, page)
      {
        CallStillFits(sys.calls[k].value, sys.written, next.written[|sys.written|], id, page);
      }
    }
  }

  /** Every step keeps the sum, except a write after other seconds. */
  lemma StepFits(sys: System, step: Step, id: string, page: int)
    requires Fits(sys, id, page) && NoneBetween(sys.written, id, page) && (step.Start? ==> step.id != id)
    ensures var next := Take(sys, step);
            && (NoneBetween(next.written, id, page) ==> Fits(next, id, page))
            && (!NoneBetween(next.written, id, page) ==>
                  !PageFits(next.tables, id, page, DwellSum(next.written, id, page)))
  {
    match step
    case Start(_, _) =>
    case ReadForDwell(_, _, _, _) => assert sys.written[..|sys.written|] == sys.written;
    case ReadForFinalize(_, _, _) =>
    case Finish(c) =>
      FinishKeepsCalls(sys, c, id, page);
      if c < |sys.calls| && sys.calls[c].Some? && sys.calls[c].value.Dwelling? {
        var call := sys.calls[c].value;
        WriteFits(sys, c, id, page);
        NoneBetweenOneMore(sys.written, Write(call.id, call.page, call.seconds, call.after), id, page);
      }
  }

  lemma HistoryGrows(sys: System, step: Step)
    ensures sys.written <= Take(sys, step).written
  {
  }

  lemma NoneBetweenBefore(written: seq<Write>, more: seq<Write>, id: string, page: int)
    requires written <= more && NoneBetween(more, id, page)
    ensures NoneBetween(written, id, page)
  {
    forall i | 0 <= i < |written| && IsFor(written[i], id, page)
      ensures NoneSince(written[..i], written[i].after, id, page)
    {
      assert written[i] == more[i] && written[..i] == more[..i];
    }
  }

  lemma RestartsFront(steps: seq<Step>, id: string)
    requires NeverRestarted(steps, id) && steps != []
    ensures NeverRestarted(steps[..|steps| - 1], id)
  {
    var front := steps[..|steps| - 1];
    forall i | 0 <= i < |front| && front[i].Start? ensures front[i].id != id {
      assert front[i] == steps[i];
    }
  }

  lemma {:induction false} RunFits(sys: System, steps: seq<Step>, id: string, page: int)
    requires JustStarted(sys, id) && NeverRestarted(steps, id) && NoneBetween(Run(sys, steps).written, id, page)
    ensures Fits(Run(sys, steps), id, page)
    decreases |steps|
  {
    if steps != [] {
      var front := Run(sys, steps[..|steps| - 1]);
      RestartsFront(steps, id);
      HistoryGrows(front, steps[|steps| - 1]);
      NoneBetweenBefore(front.written, Run(sys, steps).written, id, page);
      RunFits(sys, steps[..|steps| - 1], id, page);
      StepFits(front, steps[|steps| - 1], id, page);
    }
  }

  /**
   Whatever calls overlap otherwise: if no seconds are written to a page between a call's reading of it and its write,
   the page's seconds are the sum of its non-negative dwells.
   */
  lemma SecondsAreTheSum(sys: System, steps: seq<Step>, id: string, page: int)
    requires JustStarted(sys, id) && NeverRestarted(steps, id) && NoneBetween(Run(sys, steps).written, id, page)
    ensures var after := Run(sys, steps); PageFits(after.tables, id, page, DwellSum(after.written, id, page))
  {
    RunFits(sys, steps, id, page);
  }

  /** At every point of the run, from its end back to its start, the page's seconds are the sum of its dwells. */
  ghost predicate AlwaysTheSum(sys: System, steps: seq<Step>, id: string, page: int)
    decreases |steps|
  {
    && PageFits(Run(sys, steps).tables, id, page, DwellSum(Run(sys, steps).written, id, page))
    && (steps != [] ==> AlwaysTheSum(sys, steps[..|steps| - 1], id, page))
  }

  /**
   The exact condition: a page's seconds are the sum of its dwells at every point of a run if and only if no seconds are
   written to it between another call's reading of it and that call's write.
   */
  lemma {:induction false} SecondsAreTheSumIffNoneBetween(sys: System, steps: seq<Step>, id: string, page: int)
    requires JustStarted(sys, id) && NeverRestarted(steps, id)
    ensures AlwaysTheSum(sys, steps, id, page) <==> NoneBetween(Run(sys, steps).written, id, page)
    decreases |steps|
  {
    if steps != [] {
      var front, last := steps[..|steps| - 1], steps[|steps| - 1];
      RestartsFront(steps, id);
      SecondsAreTheSumIffNoneBetween(sys, front, id, page);
      HistoryGrows(Run(sys, front), last);
      if NoneBetween(Run(sys, front).written, id, page) {
        RunFits(sys, front, id, page);
        StepFits(Run(sys, front), last, id, page);
      } else if NoneBetween(Run(sys, steps).written, id, page) {
        NoneBetweenBefore(Run(sys, front).written, Run(sys, steps).written, id, page);
      }
    }
  }

  // --- Calls that do not overlap ---

  /** Every call finishes directly after it has read. */
  ghost predicate OneCallAtATime(steps: seq<Step>) {
    forall i :: 0 <= i < |steps| && steps[i].Finish? ==> i > 0 && ReadsFor(steps[i - 1], steps[i].call)
  }

  predicate ReadsFor(step: Step, c: nat) {
    (step.ReadForDwell? || step.ReadForFinalize?) && step.call == c
  }

  ghost predicate NothingInBetween(written: seq<Write>) {
    forall i :: 0 <= i < |written| ==> written[i].after == i
  }

  lemma OneCallFront(steps: seq<Step>)
    requires OneCallAtATime(steps) && steps != []
    ensures OneCallAtATime(steps[..|steps| - 1])
  {
    var front := steps[..|steps| - 1];
    forall i | 0 <= i < |front| && front[i].Finish? ensures i > 0 && ReadsFor(front[i - 1], front[i].call) {
      assert front[i] == steps[i];
    }
  }

  lemma FreshlyRead(sys: System, step: Step, c: nat)
    requires ReadsFor(step, c)
    ensures var next := Take(sys, step);
            next.written == sys.written
            && (c < |next.calls| && next.calls[c].Some? && next.calls[c].value.Dwelling? ==>
                  next.calls[c].value.after == |next.written|)
  {
  }

  lemma {:induction false} OneCallAtATimeHasNothingBetween(sys: System, steps: seq<Step>)
    requires sys.written == [] && OneCallAtATime(steps)
    ensures NothingInBetween(Run(sys, steps).written)
    decreases |steps|
  {
    if steps != [] {
      var front, last := steps[..|steps| - 1], steps[|steps| - 1];
      OneCallFront(steps);
      OneCallAtATimeHasNothingBetween(sys, front);
      if last.Finish? {
        assert ReadsFor(front[|front| - 1], last.call);
        FreshlyRead(Run(sys, front[..|front| - 1]), front[|front| - 1], last.call);
      }
    }
  }

  lemma NothingInBetweenIsNone(written: seq<Write>, id: string, page: int)
    requires NothingInBetween(written)
    ensures NoneBetween(written, id, page)
  {
  }

  /** With calls one after another, of any number of sessions, seconds are the sum in every run. */
  lemma SecondsAreTheSumSerially(sys: System, steps: seq<Step>, id: string, page: int)
    requires JustStarted(sys, id) && NeverRestarted(steps, id) && OneCallAtATime(steps)
    ensures var after := Run(sys, steps); PageFits(after.tables, id, page, DwellSum(after.written, id, page))
  {
    OneCallAtATimeHasNothingBetween(sys, steps);
    NothingInBetweenIsNone(Run(sys, steps).written, id, page);
    SecondsAreTheSum(sys, steps, id, page);
  }

  // --- What a late write does ---

  lemma RunOneMore(sys: System, steps: seq<Step>, more: seq<Step>, a: Step)
    requires more == steps + [a]
    ensures Run(sys, more) == Take(Run(sys, steps), a)
  {
    assert more[..|steps|] == steps;
  }

  /** The failing run exists: two calls read a page, the longer dwell completes it, the shorter one takes that back. */
  lemma LateWriteUncompletes(sys: System, id: string, page: int, short: nat, long: nat)
    requires JustStarted(sys, id) && |sys.calls| == 2 && short < 10 <= long
    ensures var both := [ReadForDwell(0, id, page, short), ReadForDwell(1, id, page, long)];
            && page in CompletedPages(Run(sys, both + [Finish(1)]).tables, id)
            && page !in CompletedPages(Run(sys, both + [Finish(1)] + [Finish(0)]).tables, id)
            && DwellSum(Run(sys, both + [Finish(1)] + [Finish(0)]).written, id, page) == short + long
  {
    var first, second := ReadForDwell(0, id, page, short), ReadForDwell(1, id, page, long);
    RunOneMore(sys, [], [first], first);
    RunOneMore(sys, [first], [first, second], second);
    RunOneMore(sys, [first, second], [first, second] + [Finish(1)], Finish(1));
    RunOneMore(sys, [first, second] + [Finish(1)], [first, second] + [Finish(1)] + [Finish(0)], Finish(0));
    var read := Run(sys, [first, second]);
    assert read.calls == [Some(Dwelling(id, page, short, 0, 0)), Some(Dwelling(id, page, long, 0, 0))];
    FinishBoth(read, id, page, short, long);
  }

  lemma FinishBoth(read: System, id: string, page: int, short: nat, long: nat)
    requires read.calls == [Some(Dwelling(id, page, short, 0, 0)), Some(Dwelling(id, page, long, 0, 0))]
    requires read.written == [] && short < THRESHOLD <= long
    ensures var one := Take(read, Finish(1));
            var two := Take(one, Finish(0));
            && page in CompletedPages(one.tables, id) && page !in CompletedPages(two.tables, id)
            && DwellSum(two.written, id, page) == short + long
  {
    var one := Take(read, Finish(1));
    var two := Take(one, Finish(0));
    CompletedMeansReached(one.tables, id, page, long);
    CompletedMeansReached(two.tables, id, page, short);
    SumOfOneMore([], Write(id, page, long, 0), id, page);
    SumOfOneMore([Write(id, page, long, 0)], Write(id, page, short, 0), id, page);
    assert [] + [Write(id, page, long, 0)] == [Write(id, page, long, 0)];
  }

  // --- Completion and the receipt ---

  lemma CompletedMeansReached(t: Tables, id: string, page: int, seconds: nat)
    requires PageFits(t, id, page, seconds)
    ensures page in CompletedPages(t, id) <==> seconds >= THRESHOLD
  {
    if (id, page) in t.pages {
      assert (id, page).0 == id && (id, page).1 == page;
    }
  }

  lemma RestartsPrefix(steps: seq<Step>, n: nat, id: string)
    requires NeverRestarted(steps, id) && n <= |steps|
    ensures NeverRestarted(steps[..n], id)
  {
    forall i | 0 <= i < n && steps[..n][i].Start? ensures steps[..n][i].id != id {
      assert steps[..n][i] == steps[i];
    }
  }

  lemma {:induction false} HistoryOfPrefix(sys: System, steps: seq<Step>, n: nat)
    requires n <= |steps|
    ensures Run(sys, steps[..n]).written <= Run(sys, steps).written
    decreases |steps|
  {
    if n == |steps| {
      assert steps[..n] == steps;
    } else {
      HistoryOfPrefix(sys, steps[..|steps| - 1], n);
      assert steps[..|steps| - 1][..n] == steps[..n];
      HistoryGrows(Run(sys, steps[..|steps| - 1]), steps[|steps| - 1]);
    }
  }

  /** Without a late write, a page once completed stays completed, however the run goes on. */
  lemma CompletedStaysCompleted(sys: System, steps: seq<Step>, n: nat, id: string, page: int)
    requires JustStarted(sys, id) && NeverRestarted(steps, id) && n <= |steps|
    requires NoneBetween(Run(sys, steps).written, id, page)
    requires page in CompletedPages(Run(sys, steps[..n]).tables, id)
    ensures page in CompletedPages(Run(sys, steps).tables, id)
  {
    var before, after := Run(sys, steps[..n]), Run(sys, steps);
    RestartsPrefix(steps, n, id);
    HistoryOfPrefix(sys, steps, n);
    NoneBetweenBefore(before.written, after.written, id, page);
    SecondsAreTheSum(sys, steps[..n], id, page);
    SecondsAreTheSum(sys, steps, id, page);
    assert before.written == after.written[..|before.written|];
    SumGrows(after.written, |before.written|, id, page);
    CompletedMeansReached(before.tables, id, page, DwellSum(before.written, id, page));
    CompletedMeansReached(after.tables, id, page, DwellSum(after.written, id, page));
  }

  ghost predicate EveryPageRead(written: seq<Write>, id: string, total: int) {
    forall page :: 1 <= page <= total ==> DwellSum(written, id, page) >= 10
  }

  ghost predicate NoneBetweenAnywhere(written: seq<Write>, id: string) {
    forall page :: NoneBetween(written, id, page)
  }

  lemma NoneMissing(total: int, completed: set<int>)
    ensures |MissingPages(total, completed)| == 0 <==> forall page :: 1 <= page <= total ==> page in completed
  {
    var missing := MissingPages(total, completed);
    if |missing| > 0 {
      assert missing[0] in missing;
    }
  }

  lemma NoneMissingIffAllRead(sys: System, steps: seq<Step>, id: string, total: int)
    requires JustStarted(sys, id) && NeverRestarted(steps, id) && NoneBetweenAnywhere(Run(sys, steps).written, id)
    ensures |MissingPages(total, CompletedPages(Run(sys, steps).tables, id))| == 0
            <==> EveryPageRead(Run(sys, steps).written, id, total)
  {
    var after := Run(sys, steps);
    NoneMissing(total, CompletedPages(after.tables, id));
    forall page ensures page in CompletedPages(after.tables, id) <==> DwellSum(after.written, id, page) >= THRESHOLD {
      SecondsAreTheSum(sys, steps, id, page);
      CompletedMeansReached(after.tables, id, page, DwellSum(after.written, id, page));
    }
  }

  lemma StepKeepsSession(sys: System, step: Step, id: string)
    requires id in sys.tables.sessions && (step.Start? ==> step.id != id)
    ensures var after := Take(sys, step).tables;
            id in after.sessions
            && after.sessions[id].(completion := Open) == sys.tables.sessions[id].(completion := Open)
  {
  }

  lemma {:induction false} RunKeepsSession(sys: System, steps: seq<Step>, id: string)
    requires id in sys.tables.sessions && NeverRestarted(steps, id)
    ensures var after := Run(sys, steps).tables;
            id in after.sessions
            && after.sessions[id].(completion := Open) == sys.tables.sessions[id].(completion := Open)
    decreases |steps|
  {
    if steps != [] {
      RestartsFront(steps, id);
      RunKeepsSession(sys, steps[..|steps| - 1], id);
      StepKeepsSession(Run(sys, steps[..|steps| - 1]), steps[|steps| - 1], id);
    }
  }

  /**
   A finalising call that reads now issues a receipt exactly when there are pages and each of them was looked at for ten
   seconds in all, if no write came late; the minimum the session was started with has no part in it.
   */
  lemma ReceiptIffEveryPageRead(sys: System, steps: seq<Step>, id: string, source: string)
    requires JustStarted(sys, id) && NeverRestarted(steps, id) && NoneBetweenAnywhere(Run(sys, steps).written, id)
    ensures var s := sys.tables.sessions[id];
            var receipt := ReceiptFor(Run(sys, steps).tables, id, source);
            && (receipt.Some? <==> s.totalPages > 0 && EveryPageRead(Run(sys, steps).written, id, s.totalPages))
            && (receipt.Some? ==> receipt.value == Receipt(s.userId, s.documentId, s.version, source))
  {
    RunKeepsSession(sys, steps, id);
    NoneMissingIffAllRead(sys, steps, id, sys.tables.sessions[id].totalPages);
  }

  /** So it is in every run of calls one after another. */
  lemma ReceiptIffEveryPageReadSerially(sys: System, steps: seq<Step>, id: string, source: string)
    requires JustStarted(sys, id) && NeverRestarted(steps, id) && OneCallAtATime(steps)
    ensures var s := sys.tables.sessions[id];
            ReceiptFor(Run(sys, steps).tables, id, source).Some?
            <==> s.totalPages > 0 && EveryPageRead(Run(sys, steps).written, id, s.totalPages)
  {
    OneCallAtATimeHasNothingBetween(sys, steps);
    forall page ensures NoneBetween(Run(sys, steps).written, id, page) {
      NothingInBetweenIsNone(Run(sys, steps).written, id, page);
    }
    ReceiptIffEveryPageRead(sys, steps, id, source);
  }

  /** A session may ask for more than ten seconds a page and still be closed with a receipt after ten. */
  lemma MinimumIsIgnored(t: Tables, id: string, source: string)
    requires id in t.sessions && t.sessions[id].totalPages == 1 && t.sessions[id].minSecondsPerPage > 10
    requires (id, 1) !in t.pages
    ensures var after := Dwelled(t, id, 1, 10);
            && after.pages[(id, 1)].seconds < t.sessions[id].minSecondsPerPage
            && ReceiptFor(after, id, source).Some?
  {
    var after := Dwelled(t, id, 1, 10);
    CompletedMeansReached(after, id, 1, 10);
    NoneMissing(1, CompletedPages(after, id));
  }

  /** A dwell for an unknown session replaces what was recorded for it: nothing adds up there. */
  lemma UnknownSessionKeepsLastDwell(t: Tables, id: string, page: int, first: int, second: int)
    requires id !in t.sessions
    ensures Dwelled(Dwelled(t, id, page, first), id, page, second).pages[(id, page)].seconds == AtLeastZero(second)
  {
    assert Dwelled(t, id, page, first).sessions == t.sessions;
  }

  // --- What is shown, and what a run leaves ---

  /** The progress of a session on the rows of its pages. */
  lemma ProgressByFields(t: Tables, id: string)
    ensures ProgressOf(t, id).Some? <==> id in t.sessions
    ensures id in t.sessions ==>
              var p, total := ProgressOf(t, id).value, t.sessions[id].totalPages;
              && p.totalPages == total
              && (forall n :: n in p.completedPages <==> (id, n) in t.pages && t.pages[(id, n)].reachedThreshold)
              && (forall n :: n in p.missingPages <==> 1 <= n <= total && n !in p.completedPages)
              && Ascends(p.missingPages)
              && (forall n :: n in p.pageSeconds <==> (id, n) in t.pages)
              && (forall n :: n in p.pageSeconds ==> p.pageSeconds[n] == t.pages[(id, n)].seconds)
              && (p.isComplete <==> total > 0 && forall n :: 1 <= n <= total ==> n in p.completedPages)
  {
    if id in t.sessions {
      var p, total := ProgressOf(t, id).value, t.sessions[id].totalPages;
      forall n ensures n in p.completedPages <==> (id, n) in t.pages && t.pages[(id, n)].reachedThreshold {
        assert (id, n) in t.pages ==> (id, n).0 == id && (id, n).1 == n;
      }
      forall n ensures n in p.pageSeconds <==> (id, n) in t.pages {
        ShownSeconds(t, id, n);
      }
      MissingAscend(total, p.completedPages);
      NoneMissing(total, p.completedPages);
    }
  }

  ghost predicate Ascends(s: seq<int>) {
    forall i, j :: 0 <= i < j < |s| ==> s[i] < s[j]
  }

  lemma {:induction false} MissingAscend(total: int, completed: set<int>)
    ensures Ascends(MissingPages(total, completed))
    decreases total
  {
    if total >= 1 {
      MissingAscend(total - 1, completed);
      var front := MissingPages(total - 1, completed);
      forall i | 0 <= i < |front| ensures front[i] < total {
        assert front[i] in front;
      }
      assert Ascends(front + [total]);
      assert front + [] == front;
    }
  }

  /** Starting records the session as open under its id, and nothing else changes. */
  lemma StartingByFields(sys: System, id: string, s: Session)
    ensures var after := Take(sys, Start(id, s));
            && after.calls == sys.calls && after.written == sys.written
            && after.tables.pages == sys.tables.pages && after.tables.receipts == sys.tables.receipts
            && after.tables.sessions == sys.tables.sessions[id := Session(
                 s.userId, s.documentId, s.version, s.totalPages, s.minSecondsPerPage, Open)]
  {
  }

  /** A call is finished once, and the other calls stay as they were. */
  lemma FinishedOnce(sys: System, c: nat)
    ensures var after := Take(sys, Finish(c));
            && Take(after, Finish(c)) == after && |after.calls| == |sys.calls|
            && forall k :: 0 <= k < |sys.calls| ==> after.calls[k] == if k == c then None else sys.calls[k]
  {
  }

  /** Step `i` of a run closes the session, with the receipt its call has made from what it read. */
  ghost predicate Closes(sys: System, steps: seq<Step>, i: nat, id: string, receipt: Option<Receipt>) {
    && i < |steps| && steps[i].Finish?
    && var calls := Run(sys, steps[..i]).calls;
       steps[i].call < |calls| && calls[steps[i].call] == Some(Finalizing(id, receipt))
  }

  lemma ClosesInFront(sys: System, steps: seq<Step>, i: nat, id: string, receipt: Option<Receipt>)
    requires i < |steps| - 1
    ensures Closes(sys, steps[..|steps| - 1], i, id, receipt) <==> Closes(sys, steps, i, id, receipt)
  {
    assert steps[..|steps| - 1][..i] == steps[..i];
  }

  /** A session is complete or incomplete as it was last closed: complete exactly if with a receipt. */
  lemma {:induction false} LastClosingHolds(sys: System, steps: seq<Step>, k: nat, id: string,
                                            receipt: Option<Receipt>)
    requires Closes(sys, steps, k, id, receipt) && id in Run(sys, steps[..k]).tables.sessions
    requires forall i: nat, r :: k < i ==> !Closes(sys, steps, i, id, r)
    requires forall i :: k < i < |steps| && steps[i].Start? ==> steps[i].id != id
    ensures var sessions := Run(sys, steps).tables.sessions;
            id in sessions && sessions[id].completion == if receipt.Some? then Complete else Incomplete
    decreases |steps|
  {
    var front, last := steps[..|steps| - 1], steps[|steps| - 1];
    if k == |steps| - 1 {
      assert front == steps[..k];
    } else {
      assert front[..k] == steps[..k];
      forall i: nat, r | k < i < |front| ensures !Closes(sys, front, i, id, r) {
        ClosesInFront(sys, steps, i, id, r);
      }
      ClosesInFront(sys, steps, k, id, receipt);
      LastClosingHolds(sys, front, k, id, receipt);
      OtherStepsKeepCompletion(Run(sys, front), last, id, sys, steps, |front|);
    }
  }

  lemma OtherStepsKeepCompletion(now: System, step: Step, id: string, sys: System, steps: seq<Step>, at: nat)
    requires |steps| == at + 1 && now == Run(sys, steps[..at]) && step == steps[at]
    requires id in now.tables.sessions && (step.Start? ==> step.id != id)
    requires forall r :: !Closes(sys, steps, at, id, r)
    ensures var after := Take(now, step).tables.sessions;
            id in after && after[id].completion == now.tables.sessions[id].completion
  {
    if step.Finish? && step.call < |now.calls| && now.calls[step.call].Some? {
      var call := now.calls[step.call].value;
      if call.Finalizing? {
        assert Closes(sys, steps, at, call.id, call.receipt);
      }
    }
  }

  /** What the receipts of a run are: those stored before, and those some call has closed its session with, each under
      its user, document and version. */
  ghost predicate IsIssued(sys: System, steps: seq<Step>, r: Receipt) {
    exists i: nat, id :: Closes(sys, steps, i, id, Some(r))
  }

  lemma {:induction false} ReceiptsAreIssued(sys: System, steps: seq<Step>, key: ReceiptKey)
    requires key in Run(sys, steps).tables.receipts
    ensures var r := Run(sys, steps).tables.receipts[key];
            || (key in sys.tables.receipts && sys.tables.receipts[key] == r)
            || (IsIssued(sys, steps, r) && key == (r.userId, r.documentId, r.version))
    decreases |steps|
  {
    if steps != [] {
      var front, last := steps[..|steps| - 1], steps[|steps| - 1];
      var before, r := Run(sys, front), Run(sys, steps).tables.receipts[key];
      if key in before.tables.receipts && before.tables.receipts[key] == r {
        ReceiptsAreIssued(sys, front, key);
        if i: nat, id :| Closes(sys, front, i, id, Some(r)) {
          ClosesInFront(sys, steps, i, id, Some(r));
        }
      } else {
        NewReceiptIsIssued(before, last, key, sys, steps, |front|);
      }
    }
  }

  lemma NewReceiptIsIssued(now: System, step: Step, key: ReceiptKey, sys: System, steps: seq<Step>, at: nat)
    requires |steps| == at + 1 && now == Run(sys, steps[..at]) && step == steps[at]
    requires key in Take(now, step).tables.receipts
    requires !(key in now.tables.receipts && now.tables.receipts[key] == Take(now, step).tables.receipts[key])
    ensures var r := Take(now, step).tables.receipts[key];
            IsIssued(sys, steps, r) && key == (r.userId, r.documentId, r.version)
  {
    var call := now.calls[step.call].value;
    assert Closes(sys, steps, at, call.id, call.receipt);
  }

  /** And the one issued last for a user, document and version is the one stored. */
  lemma {:induction false} LastReceiptIsStored(sys: System, steps: seq<Step>, k: nat, id: string, r: Receipt)
    requires Closes(sys, steps, k, id, Some(r))
    requires forall i: nat, other, q :: k < i && Closes(sys, steps, i, other, Some(q)) ==>
               q.userId != r.userId || q.documentId != r.documentId || q.version != r.version
    ensures var receipts := Run(sys, steps).tables.receipts;
            (r.userId, r.documentId, r.version) in receipts && receipts[(r.userId, r.documentId, r.version)] == r
    decreases |steps|
  {
    var front, last := steps[..|steps| - 1], steps[|steps| - 1];
    if k == |steps| - 1 {
      assert front == steps[..k];
    } else {
      ClosesInFront(sys, steps, k, id, Some(r));
      forall i: nat, other, q | k < i && Closes(sys, front, i, other, Some(q))
        ensures q.userId != r.userId || q.documentId != r.documentId || q.version != r.version
      {
        ClosesInFront(sys, steps, i, other, Some(q));
      }
      LastReceiptIsStored(sys, front, k, id, r);
      OtherStepsKeepReceipt(Run(sys, front), last, r, sys, steps, |front|);
    }
  }

  lemma OtherStepsKeepReceipt(now: System, step: Step, r: Receipt, sys: System, steps: seq<Step>, at: nat)
    requires |steps| == at + 1 && now == Run(sys, steps[..at]) && step == steps[at]
    requires (r.userId, r.documentId, r.version) in now.tables.receipts
    requires now.tables.receipts[(r.userId, r.documentId, r.version)] == r
    requires forall other, q :: Closes(sys, steps, at, other, Some(q)) ==>
               q.userId != r.userId || q.documentId != r.documentId || q.version != r.version
    ensures var receipts := Take(now, step).tables.receipts;
            (r.userId, r.documentId, r.version) in receipts && receipts[(r.userId, r.documentId, r.version)] == r
  {
    if step.Finish? && step.call < |now.calls| && now.calls[step.call].Some? {
      var call := now.calls[step.call].value;
      if call.Finalizing? && call.receipt.Some? {
        assert Closes(sys, steps, at, call.id, call.receipt);
      }
    }
  }
}
