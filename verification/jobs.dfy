/** The background jobs of the server as traces of the requests they make:
    `IndexFile` (internal/esapi/bulk.go), the earlier `analyze` handler and
    `analyzeFile`/`processEntry` (internal/api/analyze.go), and the bulk
    request shapes. A trace is replayed against the search engine's state
    by `Run`; goroutines, channels and the worker mutex are replaced by the
    order of the events. */
module Jobs {
  import opened Wrappers
  import opened Parser
  import opened StatusStore
  import Ingest
  import Sweep
  import PatternScan

  /** The search engine's indices and the server's two gates: the busy
      flag of `DeleteEntries` and the bulk worker's mutex. */
  datatype Backend = Backend(status: Store, records: map<string, Entry>, busy: bool, locked: bool)

  /** One step of a job on the file with checksum `c` (the key all status
      requests of a job use). */
  datatype Event =
    | SetBusy(on: bool)
    | Lock
    | Unlock
    | CreateStatus(doc: StatusDoc, ok: bool)   // NewStatusDocument, refused when !ok
    | WriteStatus(code: int, ok: bool)         // UpdateUploadStatus, refused when !ok; the error is ignored
    | HandOver(entry: Entry)                   // an entry sent to the workers
    | Join                                     // channels closed, workers waited for
    | BulkDelete(ids: seq<string>, ok: bool)   // refused by the engine when !ok
    | Refresh
    | RemoveStatus(ok: bool)                   // delete of the status document, refused when !ok; only logged

  /** One bulk request operation. */
  datatype BulkOp = IndexOp(doc: Entry) | DeleteOp(id: string)

  /** `BulkInsert`: one index operation per entry. */
  function BulkInsertOps(es: seq<Entry>): (ops: seq<BulkOp>)
    ensures |ops| == |es|
    ensures forall i | 0 <= i < |ops| :: ops[i].IndexOp?
  {
    if |es| == 0 then [] else [IndexOp(es[0])] + BulkInsertOps(es[1..])
  }

  /** `BulkDelete`: one delete operation per id. */
  function BulkDeleteOps(ids: seq<string>): (ops: seq<BulkOp>)
    ensures |ops| == |ids|
    ensures forall i | 0 <= i < |ops| :: ops[i].DeleteOp?
  {
    if |ids| == 0 then [] else [DeleteOp(ids[0])] + BulkDeleteOps(ids[1..])
  }

  /** The documents an insert request carries. */
  function OpDocs(ops: seq<BulkOp>): seq<Entry>
  {
    if |ops| == 0 then []
    else if ops[0].IndexOp? then [ops[0].doc] + OpDocs(ops[1..])
    else OpDocs(ops[1..])
  }

  /** The ids a delete request carries. */
  function OpIds(ops: seq<BulkOp>): seq<string>
  {
    if |ops| == 0 then []
    else if ops[0].DeleteOp? then [ops[0].id] + OpIds(ops[1..])
    else OpIds(ops[1..])
  }

  /** A bulk insert carries exactly the given entries, in order. */
  lemma {:induction false} BulkInsertCarriesEntries(es: seq<Entry>)
    ensures OpDocs(BulkInsertOps(es)) == es
  {
    if |es| > 0 {
      BulkInsertCarriesEntries(es[1..]);
      assert BulkInsertOps(es)[1..] == BulkInsertOps(es[1..]);
      assert es == [es[0]] + es[1..];
    }
  }

  /** A bulk delete carries exactly the given ids, in order. */
  lemma {:induction false} BulkDeleteCarriesIds(ids: seq<string>)
    ensures OpIds(BulkDeleteOps(ids)) == ids
  {
    if |ids| > 0 {
      BulkDeleteCarriesIds(ids[1..]);
      assert BulkDeleteOps(ids)[1..] == BulkDeleteOps(ids[1..]);
      assert ids == [ids[0]] + ids[1..];
    }
  }

  /** The operations of a delete request applied one at a time. */
  function ApplyDeletes(records: map<string, Entry>, ops: seq<BulkOp>): map<string, Entry>
  {
    if |ops| == 0 then records
    else ApplyDeletes(if ops[0].DeleteOp? then records - {ops[0].id} else records, ops[1..])
  }

  /** A bulk delete removes exactly the listed ids and nothing else. */
  lemma {:induction false} BulkDeleteRemoves(records: map<string, Entry>, ids: seq<string>)
    ensures ApplyDeletes(records, BulkDeleteOps(ids)).Keys == records.Keys - set i | 0 <= i < |ids| :: ids[i]
    ensures forall k | k in ApplyDeletes(records, BulkDeleteOps(ids)) ::
              ApplyDeletes(records, BulkDeleteOps(ids))[k] == records[k]
    decreases |ids|
  {
    if |ids| > 0 {
      BulkDeleteRemoves(records - {ids[0]}, ids[1..]);
      assert BulkDeleteOps(ids)[1..] == BulkDeleteOps(ids[1..]);
      var all := set i | 0 <= i < |ids| :: ids[i];
      var rest := set i | 0 <= i < |ids[1..]| :: ids[1..][i];
      assert all == {ids[0]} + rest by {
        forall x | x in all ensures x in {ids[0]} + rest {
          var i :| 0 <= i < |ids| && ids[i] == x;
          if i > 0 {
            assert ids[1..][i - 1] == x;
          }
        }
      }
    }
  }

  /** The effect of one event on the engine and the gates. */
  function Apply(b: Backend, c: string, ev: Event): Backend
  {
    match ev
    case SetBusy(on) => b.(busy := on)
    case Lock => b.(locked := true)
    case Unlock => b.(locked := false)
    case CreateStatus(doc, ok) =>
      (match NewStatusDocument(b.status, doc, c, ok)
       case Ok(s) => b.(status := s)
       case Err(_) => b)
    case WriteStatus(code, ok) =>
      (match UpdateUploadStatus(b.status, c, code, ok)
       case Ok(s) => b.(status := s)
       case Err(_) => b)
    case HandOver(_) => b
    case Join => b
    case BulkDelete(ids, ok) =>
      if ok then b.(records := ApplyDeletes(b.records, BulkDeleteOps(ids))) else b
    case Refresh => b
    case RemoveStatus(ok) => if ok then b.(status := b.status - {c}) else b
  }

  /** A trace replayed from `b`. */
  function Run(b: Backend, c: string, t: seq<Event>): Backend
    decreases |t|
  {
    if |t| == 0 then b else Run(Apply(b, c, t[0]), c, t[1..])
  }

  lemma {:induction false} RunAppend(b: Backend, c: string, t1: seq<Event>, t2: seq<Event>)
    ensures Run(b, c, t1 + t2) == Run(Run(b, c, t1), c, t2)
    decreases |t1|
  {
    if |t1| == 0 {
      assert t1 + t2 == t2;
    } else {
      assert (t1 + t2)[0] == t1[0];
      assert (t1 + t2)[1..] == t1[1..] + t2;
      RunAppend(Apply(b, c, t1[0]), c, t1[1..], t2);
    }
  }

  /** The status codes a trace writes, in order. */
  function StatusWrites(t: seq<Event>): seq<int>
  {
    if |t| == 0 then []
    else if t[0].WriteStatus? then [t[0].code] + StatusWrites(t[1..])
    else StatusWrites(t[1..])
  }

  lemma {:induction false} StatusWritesAppend(t1: seq<Event>, t2: seq<Event>)
    ensures StatusWrites(t1 + t2) == StatusWrites(t1) + StatusWrites(t2)
  {
    if |t1| == 0 {
      assert t1 + t2 == t2;
    } else {
      assert (t1 + t2)[0] == t1[0];
      assert (t1 + t2)[1..] == t1[1..] + t2;
      StatusWritesAppend(t1[1..], t2);
    }
  }

  /** Index of the first occurrence of `e` in `t`. */
  function Position(t: seq<Event>, e: Event): (i: nat)
    requires e in t
    ensures i < |t| && t[i] == e
    ensures forall j | 0 <= j < i :: t[j] != e
  {
    if t[0] == e then 0 else 1 + Position(t[1..], e)
  }

  // ---------------------------------------------------------------------
  // IndexFile

  /** The handing over of `es` to the workers. */
  function HandOvers(es: seq<Entry>): (t: seq<Event>)
    ensures |t| == |es|
    ensures forall i | 0 <= i < |t| :: t[i] == HandOver(es[i])
  {
    if |es| == 0 then [] else [HandOver(es[0])] + HandOvers(es[1..])
  }

  /** The entries a trace hands over, in order. */
  function HandedOver(t: seq<Event>): seq<Entry>
  {
    if |t| == 0 then []
    else if t[0].HandOver? then [t[0].entry] + HandedOver(t[1..])
    else HandedOver(t[1..])
  }

  lemma {:induction false} HandedOverAppend(t1: seq<Event>, t2: seq<Event>)
    ensures HandedOver(t1 + t2) == HandedOver(t1) + HandedOver(t2)
  {
    if |t1| == 0 {
      assert t1 + t2 == t2;
    } else {
      assert (t1 + t2)[0] == t1[0];
      assert (t1 + t2)[1..] == t1[1..] + t2;
      HandedOverAppend(t1[1..], t2);
    }
  }

  lemma {:induction false} HandOversRoundTrip(es: seq<Entry>)
    ensures HandedOver(HandOvers(es)) == es
    ensures StatusWrites(HandOvers(es)) == []
    ensures forall i | 0 <= i < |HandOvers(es)| :: HandOvers(es)[i].HandOver?
  {
    if |es| > 0 {
      HandOversRoundTrip(es[1..]);
      assert HandOvers(es)[1..] == HandOvers(es[1..]);
      assert es == [es[0]] + es[1..];
    }
  }

  /** The lines a file yields; a file that cannot be opened reads as none. */
  function Lines(file: Option<seq<string>>): seq<string>
  {
    if file.Some? then file.value else []
  }

  /** The write of status `code`; the engine refuses it when `code` is in
      `refused`, and the job carries on either way. */
  function Write(code: int, refused: set<int>): Event
  {
    WriteStatus(code, code !in refused)
  }

  /** `IndexFile`: Enqueued, then under the worker mutex Processing, the
      line loop, the join of the workers, a refresh and Complete. The open
      error of the file is only logged, and the errors of the status writes
      are ignored: `refused` holds the codes whose write the engine refuses. */
  function IndexFile(p: Parser, file: Option<seq<string>>, refused: set<int>): seq<Event>
  {
    IndexTrace(Ingest.Forwarded(p, Lines(file)), refused)
  }

  /** The trace of `IndexFile` when the line loop hands over `es`. */
  function IndexTrace(es: seq<Entry>, refused: set<int>): seq<Event>
  {
    [Write(Enqueued, refused), Lock, Write(Processing, refused)]
    + HandOvers(es)
    + [Join, Refresh, Write(Complete, refused), Unlock]
  }

  /** The status writes of `IndexFile` are Enqueued, Processing, Complete,
      whichever of them the engine refuses; the entries handed over are
      those of the line loop, so none when the file cannot be opened. */
  lemma IndexFileWritesAndEntries(p: Parser, file: Option<seq<string>>, refused: set<int>)
    ensures StatusWrites(IndexFile(p, file, refused)) == [Enqueued, Processing, Complete]
    ensures HandedOver(IndexFile(p, file, refused)) == Ingest.Forwarded(p, Lines(file))
    ensures file.None? ==> HandedOver(IndexFile(p, file, refused)) == []
  {
    IndexTraceWrites(Ingest.Forwarded(p, Lines(file)), refused);
  }

  /** `IndexFile` with the line loop as evidently intended. */
  function IntendedIndexFile(p: Parser, file: Option<seq<string>>, refused: set<int>): seq<Event>
  {
    IndexTrace(Ingest.LineLoopIntended(p, Lines(file), 0), refused)
  }

  /** With the intended loop the same status writes frame the job, and the
      entries handed over are the parsed lines after the first `Start`. */
  lemma IntendedIndexFileEntries(p: Parser, file: Option<seq<string>>, refused: set<int>)
    ensures StatusWrites(IntendedIndexFile(p, file, refused)) == [Enqueued, Processing, Complete]
    ensures var lines := Lines(file);
      HandedOver(IntendedIndexFile(p, file, refused)) == Ingest.ParsedAll(p, lines[Ingest.Skipped(p.start, |lines|)..])
  {
    Ingest.IntendedLoopSkipsHeader(p, Lines(file));
    IndexTraceWrites(Ingest.LineLoopIntended(p, Lines(file), 0), refused);
  }

  lemma IndexTraceWrites(es: seq<Entry>, refused: set<int>)
    ensures StatusWrites(IndexTrace(es, refused)) == [Enqueued, Processing, Complete]
    ensures HandedOver(IndexTrace(es, refused)) == es
  {
    var mid := HandOvers(es);
    var e0, e1, e2 := Write(Enqueued, refused), Write(Processing, refused), Write(Complete, refused);
    var head := [e0, Lock, e1];
    var tail := [Join, Refresh, e2, Unlock];
    HandOversRoundTrip(es);
    StatusWritesAppend(head + mid, tail);
    StatusWritesAppend(head, mid);
    HandedOverAppend(head + mid, tail);
    HandedOverAppend(head, mid);
    StatusWritesAppend([e0], [Lock, e1]);
    StatusWritesAppend([Lock], [e1]);
    StatusWritesAppend([Join, Refresh], [e2, Unlock]);
    StatusWritesAppend([Join], [Refresh]);
    StatusWritesAppend([e2], [Unlock]);
    HandedOverAppend([e0], [Lock, e1]);
    HandedOverAppend([Lock], [e1]);
    HandedOverAppend([Join, Refresh], [e2, Unlock]);
    HandedOverAppend([Join], [Refresh]);
    HandedOverAppend([e2], [Unlock]);
  }

  /** Processing is written after the mutex is taken and Complete before it
      is released; every entry is handed over after Processing and before
      the join; the refresh comes after the join and before Complete. */
  lemma IndexFileOrder(p: Parser, file: Option<seq<string>>, refused: set<int>)
    ensures var t := IndexFile(p, file, refused);
      var processing, complete := Write(Processing, refused), Write(Complete, refused);
      && Lock in t && Unlock in t && Join in t && Refresh in t
      && processing in t && complete in t
      && Position(t, Lock) < Position(t, processing)
      && Position(t, Join) < Position(t, Refresh) < Position(t, complete)
      && Position(t, complete) < Position(t, Unlock)
      && forall i | 0 <= i < |t| && t[i].HandOver? ::
           Position(t, processing) < i < Position(t, Join)
  {
    var es := Ingest.Forwarded(p, Lines(file));
    IndexTraceHeadPositions(es, refused);
    IndexTraceTailPositions(es, refused);
    IndexTraceMiddle(IndexTrace(es, refused), |es|, refused);
  }

  /** The positions of the events `IndexTrace` puts before the hand-overs. */
  lemma IndexTraceHeadPositions(es: seq<Entry>, refused: set<int>)
    ensures var t := IndexTrace(es, refused);
      && Lock in t && Position(t, Lock) == 1
      && Write(Processing, refused) in t && Position(t, Write(Processing, refused)) == 2
  {
    var head := [Write(Enqueued, refused), Lock, Write(Processing, refused)];
    var rest := HandOvers(es) + [Join, Refresh, Write(Complete, refused), Unlock];
    assert IndexTrace(es, refused) == head + rest;
    PositionPrefix(head, rest, Lock);
    PositionPrefix(head, rest, Write(Processing, refused));
    PositionAt(head, Write(Processing, refused), 2);
  }

  /** The positions of the events `IndexTrace` puts after the hand-overs. */
  lemma IndexTraceTailPositions(es: seq<Entry>, refused: set<int>)
    ensures var t := IndexTrace(es, refused);
      && |t| == |es| + 7
      && Join in t && Position(t, Join) == |es| + 3
      && Refresh in t && Position(t, Refresh) == |es| + 4
      && Write(Complete, refused) in t && Position(t, Write(Complete, refused)) == |es| + 5
      && Unlock in t && Position(t, Unlock) == |es| + 6
  {
    var front := [Write(Enqueued, refused), Lock, Write(Processing, refused)] + HandOvers(es);
    HandOversRoundTrip(es);
    TailPositions(front, [Join, Refresh, Write(Complete, refused), Unlock], Write(Complete, refused));
  }

  /** Positions of the closing events, behind a prefix holding none of them. */
  lemma TailPositions(front: seq<Event>, tail: seq<Event>, complete: Event)
    requires tail == [Join, Refresh, complete, Unlock] && complete.WriteStatus?
    requires Join !in front && Refresh !in front && complete !in front && Unlock !in front
    ensures Join in front + tail && Position(front + tail, Join) == |front|
    ensures Refresh in front + tail && Position(front + tail, Refresh) == |front| + 1
    ensures complete in front + tail && Position(front + tail, complete) == |front| + 2
    ensures Unlock in front + tail && Position(front + tail, Unlock) == |front| + 3
  {
    PositionAppend(front, tail, Join);
    PositionAppend(front, tail, Refresh);
    PositionAppend(front, tail, complete);
    PositionAppend(front, tail, Unlock);
    PositionAt(tail, Refresh, 1);
    PositionAt(tail, complete, 2);
    PositionAt(tail, Unlock, 3);
  }

  lemma PositionPrefix(a: seq<Event>, b: seq<Event>, e: Event)
    requires e in a
    ensures e in a + b && Position(a + b, e) == Position(a, e)
  {
    PositionAt(a + b, e, Position(a, e));
  }

  lemma PositionAppend(a: seq<Event>, b: seq<Event>, e: Event)
    requires e !in a && e in b
    ensures e in a + b && Position(a + b, e) == |a| + Position(b, e)
  {
    var i := Position(b, e);
    assert forall j | |a| <= j < |a| + i :: (a + b)[j] == b[j - |a|];
    PositionAt(a + b, e, |a| + i);
  }

  lemma IndexTraceMiddle(t: seq<Event>, n: nat, refused: set<int>)
    requires |t| == n + 7
    requires t[0] == Write(Enqueued, refused) && t[1] == Lock && t[2] == Write(Processing, refused)
    requires t[n + 3] == Join && t[n + 4] == Refresh
    requires t[n + 5] == Write(Complete, refused) && t[n + 6] == Unlock
    ensures forall i | 0 <= i < |t| && t[i].HandOver? :: 2 < i < n + 3
  {
  }

  lemma PositionAt(t: seq<Event>, e: Event, i: nat)
    requires i < |t| && t[i] == e
    requires forall j | 0 <= j < i :: t[j] != e
    ensures e in t && Position(t, e) == i
  {
  }

  /** `Run` unfolded once. */
  lemma RunCons(b: Backend, c: string, e: Event, t: seq<Event>)
    ensures Run(b, c, [e] + t) == Run(Apply(b, c, e), c, t)
  {
    assert ([e] + t)[1..] == t;
  }

  /** A status write marks document `c`, when there is one, and changes
      nothing else. */
  function Marked(b: Backend, c: string, code: int): Backend
  {
    if c in b.status then b.(status := b.status[c := Sweep.Mark(b.status[c], code)]) else b
  }

  /** The engine after the write of status `code`: marked when the engine
      accepts it, as it was when `code` is in `refused`. */
  function Written(b: Backend, c: string, code: int, refused: set<int>): Backend
  {
    if code in refused then b else Marked(b, c, code)
  }

  lemma MarkedTwice(b: Backend, c: string, code1: int, code2: int)
    ensures Marked(Marked(b, c, code1), c, code2) == Marked(b, c, code2)
  {
  }

  lemma RunWrite(b: Backend, c: string, code: int, refused: set<int>, t: seq<Event>)
    ensures Run(b, c, [Write(code, refused)] + t) == Run(Written(b, c, code, refused), c, t)
  {
    RunCons(b, c, Write(code, refused), t);
  }

  lemma RunHead(b: Backend, c: string, refused: set<int>)
    ensures Run(b, c, [Write(Enqueued, refused), Lock, Write(Processing, refused)])
         == Written(Written(b, c, Enqueued, refused), c, Processing, refused).(locked := true)
  {
    var e0, e1 := Write(Enqueued, refused), Write(Processing, refused);
    var b0 := Written(b, c, Enqueued, refused);
    assert [e0, Lock, e1] == [e0] + ([Lock] + ([e1] + []));
    RunWrite(b, c, Enqueued, refused, [Lock] + ([e1] + []));
    RunCons(b0, c, Lock, [e1] + []);
    RunWrite(b0.(locked := true), c, Processing, refused, []);
  }

  lemma RunTail(b: Backend, c: string, code: int, refused: set<int>)
    ensures Run(b, c, [Join, Refresh, Write(code, refused), Unlock]) == Written(b, c, code, refused).(locked := false)
  {
    var write := Write(code, refused);
    assert [Join, Refresh, write, Unlock] == [Join] + ([Refresh] + ([write] + ([Unlock] + [])));
    RunCons(b, c, Join, [Refresh] + ([write] + ([Unlock] + [])));
    RunCons(b, c, Refresh, [write] + ([Unlock] + []));
    RunWrite(b, c, code, refused, [Unlock] + []);
    RunCons(Written(b, c, code, refused), c, Unlock, []);
  }

  /** Replaying `IndexFile` once the mutex is free: the file's status
      document ends at the last status the engine accepted (Complete when
      that write is accepted) with its other fields kept, and as it was when
      every write is refused; every other document and the entries stay as
      they were, and the mutex is released. */
  lemma IndexFileEffect(b: Backend, p: Parser, file: Option<seq<string>>, refused: set<int>)
    requires !b.locked
    ensures var c := p.checksum;
      var r := Run(b, c, IndexFile(p, file, refused));
      && r.status.Keys == b.status.Keys
      && (c in b.status ==>
            r.status[c] == (if Complete !in refused then Sweep.Mark(b.status[c], Complete)
                            else if Processing !in refused then Sweep.Mark(b.status[c], Processing)
                            else if Enqueued !in refused then Sweep.Mark(b.status[c], Enqueued)
                            else b.status[c]))
      && (forall k | k in b.status && k != c :: r.status[k] == b.status[k])
      && r.records == b.records && r.busy == b.busy && !r.locked
  {
    var c := p.checksum;
    IndexTraceEffect(b, c, Ingest.Forwarded(p, Lines(file)), refused);
    MarkedTwice(b, c, Enqueued, Processing);
    MarkedTwice(b, c, Processing, Complete);
    MarkedTwice(b, c, Enqueued, Complete);
    MarkedTwice(Marked(b, c, Enqueued), c, Processing, Complete);
  }

  lemma IndexTraceEffect(b: Backend, c: string, es: seq<Entry>, refused: set<int>)
    ensures Run(b, c, IndexTrace(es, refused))
         == Written(Written(Written(b, c, Enqueued, refused), c, Processing, refused),
                    c, Complete, refused).(locked := false)
  {
    var head := [Write(Enqueued, refused), Lock, Write(Processing, refused)];
    var mid := HandOvers(es);
    var tail := [Join, Refresh, Write(Complete, refused), Unlock];
    RunAppend(b, c, head + mid, tail);
    RunAppend(b, c, head, mid);
    var b2 := Run(b, c, head);
    RunHead(b, c, refused);
    HandOversRoundTrip(es);
    RunHandOvers(b2, c, mid);
    RunTail(b2, c, Complete, refused);
  }

  /** Handing over entries does not touch the engine or the gates. */
  lemma {:induction false} RunHandOvers(b: Backend, c: string, t: seq<Event>)
    requires forall i | 0 <= i < |t| :: t[i].HandOver?
    ensures Run(b, c, t) == b
  {
    if |t| > 0 {
      RunHandOvers(b, c, t[1..]);
    }
  }

  // ---------------------------------------------------------------------
  // The earlier analyze handler (internal/api/analyze.go)

  /** The body of an analyze request. */
  datatype AnalyzeReq = AnalyzeReq(filename: string, pattern: string, columns: seq<int>)

  /** The HTTP status `analyze` answers with: 400 for an undecodable body
      or an empty column list, 404 when the uploaded file is missing, 200
      once the background job has been started. */
  function AnalyzeResponse(body: Option<AnalyzeReq>, fileExists: bool): (code: int)
    ensures code == 200 <==> body.Some? && |body.value.columns| >= 1 && fileExists
    ensures body.None? ==> code == 400
    ensures body.Some? && |body.value.columns| == 0 ==> code == 400
    ensures body.Some? && |body.value.columns| >= 1 && !fileExists ==> code == 404
    ensures code == 200 || code == 400 || code == 404
  {
    if body.None? then 400
    else if |body.value.columns| < 1 then 400
    else if !fileExists then 404
    else 200
  }

  /** The request `analyze` hands to the background `analyzeFile`, if it
      starts one: the goroutine is started after the three checks pass. */
  function AnalyzeStarts(body: Option<AnalyzeReq>, fileExists: bool): Option<AnalyzeReq>
  {
    match body
    case None => None
    case Some(req) => if |req.columns| >= 1 && fileExists then Some(req) else None
  }

  /** A background job is started exactly when the answer is 200, and it is
      given the decoded request. */
  lemma AnalyzeStartsOnSuccess(body: Option<AnalyzeReq>, fileExists: bool)
    ensures AnalyzeStarts(body, fileExists).Some? <==> AnalyzeResponse(body, fileExists) == 200
    ensures AnalyzeStarts(body, fileExists).Some? ==> AnalyzeStarts(body, fileExists) == body
  {
  }

  /** `processEntry`: the line loop, the join of the workers, a refresh,
      then status 1, a write the engine refuses when status 1 is in
      `refused`. */
  function ProcessEntry(p: Parser, file: Option<seq<string>>, refused: set<int>): seq<Event>
  {
    ProcessTrace(Ingest.Forwarded(p, Lines(file)), refused)
  }

  /** The trace of `processEntry` when the line loop hands over `es`. */
  function ProcessTrace(es: seq<Entry>, refused: set<int>): seq<Event>
  {
    HandOvers(es) + [Join, Refresh, Write(LegacyComplete, refused)]
  }

  /** `analyzeFile` once the file has been moved and its checksum taken:
      the status document (status 0) is written first; a refused write
      ends the job, as does a pattern the parser rejects. The error of the
      final status write is ignored. */
  function AnalyzeFile(req: AnalyzeReq, name: string, filepath: string, checksum: string,
                       date: string, createOk: bool, refused: set<int>, file: Option<seq<string>>): seq<Event>
  {
    var doc := StatusDoc(date, name, checksum, LegacyProcessing);
    [CreateStatus(doc, createOk)]
    + if !createOk then []
      else
        match New(req.pattern, req.columns, req.filename, filepath, Some(checksum))
        case Err(_) => []
        case Ok(p) => ProcessEntry(p, file, refused)
  }

  /** The status document comes first and nothing is parsed when it could
      not be written; otherwise, when the pattern is accepted, the job ends
      with the join, the refresh and status 1, in that order. */
  lemma AnalyzeFileOrder(req: AnalyzeReq, name: string, filepath: string, checksum: string,
                         date: string, createOk: bool, refused: set<int>, file: Option<seq<string>>)
    ensures var t := AnalyzeFile(req, name, filepath, checksum, date, createOk, refused, file);
      && t[0] == CreateStatus(StatusDoc(date, name, checksum, LegacyProcessing), createOk)
      && (!createOk ==> |t| == 1)
      && (createOk && PatternScan.Scan(req.pattern).Ok? ==>
            && |t| >= 4
            && t[|t| - 3..] == [Join, Refresh, Write(LegacyComplete, refused)]
            && forall i | 1 <= i < |t| - 3 :: t[i].HandOver?)
  {
    var t := AnalyzeFile(req, name, filepath, checksum, date, createOk, refused, file);
    if createOk && PatternScan.Scan(req.pattern).Ok? {
      var p := New(req.pattern, req.columns, req.filename, filepath, Some(checksum)).value;
      var es := Ingest.Forwarded(p, Lines(file));
      assert t == [t[0]] + ProcessTrace(es, refused);
      ProcessTraceLayout(t[0], es, refused);
    }
  }

  /** A trace made of one event followed by `ProcessTrace`: hand-overs,
      then the three closing events. */
  lemma ProcessTraceLayout(e: Event, es: seq<Entry>, refused: set<int>)
    ensures var t := [e] + ProcessTrace(es, refused);
      && |t| >= 4
      && t[|t| - 3..] == [Join, Refresh, Write(LegacyComplete, refused)]
      && forall i | 1 <= i < |t| - 3 :: t[i].HandOver?
  {
    HandOversRoundTrip(es);
    var t := [e] + ProcessTrace(es, refused);
    assert t == [e] + HandOvers(es) + [Join, Refresh, Write(LegacyComplete, refused)];
  }

  /** The effect of `analyzeFile`: a refused status document leaves the
      engine as it was; otherwise the document holds the fields it was
      created with and ends at status 1 when the pattern parses and the
      final write is accepted, at status 0 when either fails. The entry
      index is never changed by the trace itself. */
  lemma AnalyzeFileEffect(b: Backend, req: AnalyzeReq, name: string, filepath: string, checksum: string,
                          date: string, createOk: bool, refused: set<int>, file: Option<seq<string>>)
    ensures var r := Run(b, checksum, AnalyzeFile(req, name, filepath, checksum, date, createOk, refused, file));
      && r.records == b.records
      && (!createOk ==> r == b)
      && (createOk ==>
            && checksum in r.status
            && r.status[checksum] == Stored(StatusDoc(date, name, checksum,
                 if LegacyComplete !in refused && PatternScan.Scan(req.pattern).Ok? then LegacyComplete else LegacyProcessing), true))
  {
    var doc := StatusDoc(date, name, checksum, LegacyProcessing);
    var t := AnalyzeFile(req, name, filepath, checksum, date, createOk, refused, file);
    var b1 := Apply(b, checksum, CreateStatus(doc, createOk));
    if !createOk || PatternScan.Scan(req.pattern).Err? {
      assert t == [CreateStatus(doc, createOk)] + [];
      RunCons(b, checksum, CreateStatus(doc, createOk), []);
    } else {
      var p := New(req.pattern, req.columns, req.filename, filepath, Some(checksum)).value;
      var es := Ingest.Forwarded(p, Lines(file));
      assert t == [CreateStatus(doc, createOk)] + ProcessTrace(es, refused);
      RunCons(b, checksum, CreateStatus(doc, createOk), ProcessTrace(es, refused));
      ProcessTraceEffect(b1, checksum, es, refused);
    }
  }

  lemma ProcessTraceEffect(b: Backend, c: string, es: seq<Entry>, refused: set<int>)
    ensures Run(b, c, ProcessTrace(es, refused)) == Written(b, c, LegacyComplete, refused)
  {
    var mid := HandOvers(es);
    var last := Write(LegacyComplete, refused);
    var tail := [Join, Refresh, last];
    RunAppend(b, c, mid, tail);
    HandOversRoundTrip(es);
    RunHandOvers(b, c, mid);
    assert tail == [Join] + ([Refresh] + ([last] + []));
    RunCons(b, c, Join, [Refresh] + ([last] + []));
    RunCons(b, c, Refresh, [last] + []);
    RunWrite(b, c, LegacyComplete, refused, []);
  }
}
