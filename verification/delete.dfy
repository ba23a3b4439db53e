/** `DeleteEntries` (internal/esapi/delete.go) and its earlier version
    (internal/elastic/esapi.go): the ids the scroll returns are gathered in
    a chunk and sent in bulk-delete requests. The scroll is a given
    sequence of pages; each request is a `BulkDelete` event of `Jobs`. */
module Deletion {
  import opened Wrappers
  import opened StatusStore
  import opened Jobs
  import Parser
  import Sweep

  // ---------------------------------------------------------------------
  // Batching

  /** The hit loop of one page: before appending a hit, a chunk holding
      more than `cSize` ids is sent and emptied. Returns the requests sent
      and the chunk left over. */
  function PageLoop(hits: seq<string>, cSize: nat, chunk: seq<string>): (r: (seq<seq<string>>, seq<string>))
    requires |chunk| <= cSize + 1
    ensures Flatten(r.0) + r.1 == chunk + hits
    ensures forall i | 0 <= i < |r.0| :: |r.0[i]| == cSize + 1
    ensures |r.1| <= cSize + 1
    ensures |hits| > 0 ==> |r.1| >= 1
    ensures |hits| == 0 ==> r == ([], chunk)
    decreases |hits|
  {
    if |hits| == 0 then ([], chunk)
    else if |chunk| > cSize then
      var rest := PageLoop(hits[1..], cSize, [hits[0]]);
      assert ([chunk] + rest.0)[1..] == rest.0;
      assert hits == [hits[0]] + hits[1..];
      ([chunk] + rest.0, rest.1)
    else
      var rest := PageLoop(hits[1..], cSize, chunk + [hits[0]]);
      assert hits == [hits[0]] + hits[1..];
      rest
  }

  /** One page in full: the hit loop, then a request for a non-empty
      chunk. Returns the requests and the chunk carried to the next page. */
  function PageCalls(hits: seq<string>, cSize: nat, chunk: seq<string>): (r: (seq<seq<string>>, seq<string>))
    requires |chunk| <= cSize + 1
    ensures Flatten(r.0) == chunk + hits
    ensures forall i | 0 <= i < |r.0| :: 1 <= |r.0[i]| <= cSize + 1
    ensures |r.1| <= cSize + 1
    ensures forall x | x in r.1 :: x in chunk + hits
  {
    var (inner, left) := PageLoop(hits, cSize, chunk);
    if |left| > 0 then
      FlattenAppend(inner, [left]);
      assert Flatten([left]) == left + Flatten([left][1..]);
      (inner + [left], left)
    else
      assert left == [];
      (inner, left)
  }

  /** The scroll loop over `pages`. With `clear` false, as written, the
      chunk survives the end-of-page request and is sent again with the
      next page's ids; with `clear` true it is emptied there. */
  function ScrollLoop(pages: seq<seq<string>>, cSize: nat, chunk: seq<string>, clear: bool): (calls: seq<seq<string>>)
    requires |chunk| <= cSize + 1
    ensures forall i | 0 <= i < |calls| :: 1 <= |calls[i]| <= cSize + 1
    decreases |pages|
  {
    if |pages| == 0 then []
    else
      var r := PageCalls(pages[0], cSize, chunk);
      r.0 + ScrollLoop(pages[1..], cSize, if clear then [] else r.1, clear)
  }

  /** The bulk-delete requests of `DeleteEntries` as written. */
  function DeleteCalls(pages: seq<seq<string>>, cSize: nat): (calls: seq<seq<string>>)
    ensures forall i | 0 <= i < |calls| :: 1 <= |calls[i]| <= cSize + 1
  {
    ScrollLoop(pages, cSize, [], false)
  }

  /** The requests with the chunk emptied after each end-of-page request. */
  function IntendedDeleteCalls(pages: seq<seq<string>>, cSize: nat): (calls: seq<seq<string>>)
    ensures forall i | 0 <= i < |calls| :: 1 <= |calls[i]| <= cSize + 1
  {
    ScrollLoop(pages, cSize, [], true)
  }

  /** As written, every id the scroll returns is in some request, and every
      id sent is one the scroll returned (or was already in the chunk). */
  lemma {:induction false} ScrollLoopCovers(pages: seq<seq<string>>, cSize: nat, chunk: seq<string>)
    requires |chunk| <= cSize + 1
    ensures forall x | x in Flatten(pages) :: x in Flatten(ScrollLoop(pages, cSize, chunk, false))
    ensures forall x | x in Flatten(ScrollLoop(pages, cSize, chunk, false)) :: x in chunk + Flatten(pages)
    decreases |pages|
  {
    if |pages| > 0 {
      var r := PageCalls(pages[0], cSize, chunk);
      var rest := ScrollLoop(pages[1..], cSize, r.1, false);
      ScrollLoopCovers(pages[1..], cSize, r.1);
      FlattenAppend(r.0, rest);
      assert Flatten(pages) == pages[0] + Flatten(pages[1..]);
      assert ScrollLoop(pages, cSize, chunk, false) == r.0 + rest;
    }
  }

  /** The requests of `DeleteEntries` carry exactly the ids the scroll
      returned, as a set: none is missed and none is invented. */
  lemma DeleteCallsCover(pages: seq<seq<string>>, cSize: nat)
    ensures forall x :: x in Flatten(DeleteCalls(pages, cSize)) <==> x in Flatten(pages)
  {
    ScrollLoopCovers(pages, cSize, []);
  }

  /** With the chunk emptied after each page, the requests carry every id
      exactly once, in scroll order. */
  lemma {:induction false} IntendedDeleteCallsExact(pages: seq<seq<string>>, cSize: nat)
    ensures Flatten(IntendedDeleteCalls(pages, cSize)) == Flatten(pages)
    decreases |pages|
  {
    if |pages| > 0 {
      var r := PageCalls(pages[0], cSize, []);
      IntendedDeleteCallsExact(pages[1..], cSize);
      FlattenAppend(r.0, IntendedDeleteCalls(pages[1..], cSize));
      assert [] + pages[0] == pages[0];
    }
  }

  /** As written, two one-hit pages (the scroll's page size is 1) give two
      requests, the second resending the first id. */
  lemma DeleteCallsResend(a: string, b: string, cSize: nat)
    requires cSize >= 1
    ensures DeleteCalls([[a], [b]], cSize) == [[a], [a, b]]
    ensures IntendedDeleteCalls([[a], [b]], cSize) == [[a], [b]]
  {
    assert [[a], [b]][1..] == [[b]];
    assert [[b]][1..] == [];
    assert [a][1..] == [] && [b][1..] == [];
    assert [] + [a] == [a] && [] + [b] == [b] && [a] + [b] == [a, b];
    assert PageLoop([a], cSize, []) == ([], [a]);
    assert PageLoop([b], cSize, [a]) == ([], [a, b]);
    assert PageLoop([b], cSize, []) == ([], [b]);
    var none: seq<seq<string>> := [];
    assert none + [[a]] == [[a]] && none + [[b]] == [[b]] && none + [[a, b]] == [[a, b]];
    assert PageCalls([a], cSize, []) == ([[a]], [a]);
    assert PageCalls([b], cSize, [a]) == ([[a, b]], [a, b]);
    assert PageCalls([b], cSize, []) == ([[b]], [b]);
    assert ScrollLoop([[b]], cSize, [a], false) == [[a, b]];
    assert ScrollLoop([[b]], cSize, [], true) == [[b]];
  }

  /** An element of a flattened sequence sits in one of its parts. */
  lemma {:induction false} FlattenMember(xss: seq<seq<string>>, x: string)
    requires x in Flatten(xss)
    ensures exists i | 0 <= i < |xss| :: x in xss[i]
  {
    if x !in xss[0] {
      FlattenMember(xss[1..], x);
      var i :| 0 <= i < |xss[1..]| && x in xss[1..][i];
      assert x in xss[i + 1];
    }
  }

  // ---------------------------------------------------------------------
  // The job

  /** The records left once the ids in `ids` are deleted. */
  function Without(records: map<string, Parser.Entry>, ids: seq<string>): (r: map<string, Parser.Entry>)
    ensures forall k :: k in r <==> k in records && k !in ids
    ensures forall k | k in r :: r[k] == records[k]
  {
    map k | k in records && k !in ids :: records[k]
  }

  lemma WithoutAppend(records: map<string, Parser.Entry>, a: seq<string>, b: seq<string>)
    ensures Without(Without(records, a), b) == Without(records, a + b)
  {
  }

  /** An accepted bulk delete removes its ids. */
  lemma ApplyBulkDelete(b: Backend, c: string, ids: seq<string>)
    ensures Apply(b, c, BulkDelete(ids, true)) == b.(records := Without(b.records, ids))
  {
    var after := ApplyDeletes(b.records, BulkDeleteOps(ids));
    BulkDeleteRemoves(b.records, ids);
    assert forall k :: k in after <==> k in Without(b.records, ids) by {
      forall k ensures k in after <==> k in Without(b.records, ids) {
        if k in ids {
          var i :| 0 <= i < |ids| && ids[i] == k;
        }
      }
    }
    assert after == Without(b.records, ids);
  }

  /** Accepted bulk deletes, one per chunk. */
  function Requests(calls: seq<seq<string>>): (t: seq<Event>)
    ensures |t| == |calls|
  {
    if |calls| == 0 then [] else [BulkDelete(calls[0], true)] + Requests(calls[1..])
  }

  /** Request `i` deletes chunk `i`. */
  lemma {:induction false} RequestsAt(calls: seq<seq<string>>)
    ensures forall i | 0 <= i < |calls| :: Requests(calls)[i] == BulkDelete(calls[i], true)
  {
    if |calls| > 0 {
      RequestsAt(calls[1..]);
      forall i | 0 <= i < |calls| ensures Requests(calls)[i] == BulkDelete(calls[i], true) {
        if i > 0 {
          assert Requests(calls)[i] == Requests(calls[1..])[i - 1];
        }
      }
    }
  }

  /** Accepted bulk deletes remove the ids of all their chunks. */
  lemma {:induction false} RunRequests(b: Backend, c: string, calls: seq<seq<string>>)
    ensures Run(b, c, Requests(calls)) == b.(records := Without(b.records, Flatten(calls)))
    decreases |calls|
  {
    if |calls| == 0 {
      assert Without(b.records, []) == b.records;
    } else {
      var b1 := Apply(b, c, BulkDelete(calls[0], true));
      ApplyBulkDelete(b, c, calls[0]);
      RunCons(b, c, BulkDelete(calls[0], true), Requests(calls[1..]));
      RunRequests(b1, c, calls[1..]);
      WithoutAppend(b.records, calls[0], Flatten(calls[1..]));
    }
  }

  /** The number of requests, out of `n` numbered from `k`, made before
      the first one the engine refuses (`fails` holds the refused
      numbers). */
  function FirstFailure(n: nat, k: nat, fails: set<nat>): (f: nat)
    ensures f <= n
    ensures forall j | k <= j < k + f :: j !in fails
    ensures f == n || k + f in fails
    decreases n
  {
    if n == 0 || k in fails then 0 else 1 + FirstFailure(n - 1, k + 1, fails)
  }

  /** The requests of the current version from request number `k` on:
      the first refused one is followed by the Error write and ends the
      job, leaving the busy flag set; once all are accepted, `closing`.
      The engine refuses the status writes whose codes are in `refused`. */
  function Deletes(calls: seq<seq<string>>, k: nat, fails: set<nat>, refused: set<int>, closing: seq<Event>): seq<Event>
    decreases |calls|
  {
    if |calls| == 0 then closing
    else if k in fails then [BulkDelete(calls[0], false), Write(Error, refused)]
    else [BulkDelete(calls[0], true)] + Deletes(calls[1..], k + 1, fails, refused, closing)
  }

  /** What follows the accepted requests: the refused one and the Error
      write, or `closing` when there is none. */
  function Ending(calls: seq<seq<string>>, f: nat, refused: set<int>, closing: seq<Event>): seq<Event>
    requires f <= |calls|
  {
    if f == |calls| then closing else [BulkDelete(calls[f], false), Write(Error, refused)]
  }

  /** `Deletes` in closed form: the accepted requests, then the ending. */
  lemma {:induction false} DeletesLayout(calls: seq<seq<string>>, k: nat, fails: set<nat>, refused: set<int>,
                                         closing: seq<Event>)
    ensures var f := FirstFailure(|calls|, k, fails);
      Deletes(calls, k, fails, refused, closing) == Requests(calls[..f]) + Ending(calls, f, refused, closing)
    decreases |calls|
  {
    var f := FirstFailure(|calls|, k, fails);
    if |calls| > 0 && k !in fails {
      DeletesLayout(calls[1..], k + 1, fails, refused, closing);
      DeletesStep(calls, k, fails, refused, closing, FirstFailure(|calls| - 1, k + 1, fails));
    } else {
      DeletesStop(calls, k, fails, refused, closing);
    }
  }

  /** `DeletesLayout` where the first request is accepted, from the closed
      form of the rest. */
  lemma DeletesStep(calls: seq<seq<string>>, k: nat, fails: set<nat>, refused: set<int>, closing: seq<Event>, g: nat)
    requires |calls| > 0 && k !in fails && g == FirstFailure(|calls| - 1, k + 1, fails)
    requires Deletes(calls[1..], k + 1, fails, refused, closing)
          == Requests(calls[1..][..g]) + Ending(calls[1..], g, refused, closing)
    ensures g + 1 == FirstFailure(|calls|, k, fails)
    ensures Deletes(calls, k, fails, refused, closing) == Requests(calls[..g + 1]) + Ending(calls, g + 1, refused, closing)
  {
    RequestsCons(calls, g + 1);
    EndingCons(calls, g, refused, closing);
    Glue(Deletes(calls, k, fails, refused, closing), [BulkDelete(calls[0], true)],
         Deletes(calls[1..], k + 1, fails, refused, closing),
         Requests(calls[1..][..g]), Ending(calls[1..], g, refused, closing),
         Requests(calls[..g + 1]), Ending(calls, g + 1, refused, closing));
  }

  /** `DeletesLayout` where the first request is refused or there is none. */
  lemma DeletesStop(calls: seq<seq<string>>, k: nat, fails: set<nat>, refused: set<int>, closing: seq<Event>)
    requires |calls| == 0 || k in fails
    ensures Deletes(calls, k, fails, refused, closing) == Requests(calls[..0]) + Ending(calls, 0, refused, closing)
  {
    assert calls[..0] == [];
    assert Requests(calls[..0]) == [];
  }

  lemma EndingCons(calls: seq<seq<string>>, g: nat, refused: set<int>, closing: seq<Event>)
    requires g < |calls|
    ensures Ending(calls[1..], g, refused, closing) == Ending(calls, g + 1, refused, closing)
  {
    if g + 1 < |calls| {
      assert calls[1..][g] == calls[g + 1];
    }
  }

  /** One step of `DeletesLayout` over plain sequences: `d` is `head`
      before `d1`, which splits as `rest` then `tail`. */
  lemma Glue<T>(d: seq<T>, head: seq<T>, d1: seq<T>, rest: seq<T>, tail: seq<T>, req: seq<T>, end: seq<T>)
    requires d == head + d1 && d1 == rest + tail && req == head + rest && end == tail
    ensures d == req + end
  {
  }

  lemma RequestsCons(calls: seq<seq<string>>, f: nat)
    requires 1 <= f <= |calls|
    ensures Requests(calls[..f]) == [BulkDelete(calls[0], true)] + Requests(calls[1..][..f - 1])
  {
    assert calls[..f][1..] == calls[1..][..f - 1];
    assert calls[..f][0] == calls[0];
  }

  /** How the current version ends once the scroll stops: at the end of the
      results, a refresh, the removal of the status document (accepted when
      `removeOk`; a refusal is only logged) and the busy flag cleared; on a
      scroll error, the Error write (the loop then reads the missing result
      and the process stops). */
  function Closing(scrollErr: bool, refused: set<int>, removeOk: bool): seq<Event>
  {
    if scrollErr then [Write(Error, refused)] else [Refresh, RemoveStatus(removeOk), SetBusy(false)]
  }

  /** The current version over the requests `calls`. */
  function DeleteTrace(calls: seq<seq<string>>, scrollErr: bool, fails: set<nat>, refused: set<int>,
                       removeOk: bool): seq<Event>
  {
    [SetBusy(true), Write(Deleting, refused)] + Deletes(calls, 0, fails, refused, Closing(scrollErr, refused, removeOk))
  }

  /** `DeleteEntries` as written: the scroll delivers `pages` and then ends
      (`scrollErr` false) or fails; `fails` numbers the refused requests,
      `refused` holds the status codes whose write the engine refuses and
      `removeOk` says whether it accepts the removal of the status document. */
  function DeleteEntries(pages: seq<seq<string>>, cSize: nat, scrollErr: bool, fails: set<nat>, refused: set<int>,
                         removeOk: bool): seq<Event>
  {
    DeleteTrace(DeleteCalls(pages, cSize), scrollErr, fails, refused, removeOk)
  }

  /** `DeleteEntries` with the chunk emptied after each end-of-page request. */
  function IntendedDeleteEntries(pages: seq<seq<string>>, cSize: nat, scrollErr: bool, fails: set<nat>,
                                 refused: set<int>, removeOk: bool): seq<Event>
  {
    DeleteTrace(IntendedDeleteCalls(pages, cSize), scrollErr, fails, refused, removeOk)
  }

  /** `DeleteTrace` in closed form: the head, the accepted requests, then
      the ending. */
  lemma DeleteTraceSplit(calls: seq<seq<string>>, scrollErr: bool, fails: set<nat>, refused: set<int>, removeOk: bool)
    ensures var f := FirstFailure(|calls|, 0, fails);
      DeleteTrace(calls, scrollErr, fails, refused, removeOk)
      == ([SetBusy(true), Write(Deleting, refused)] + Requests(calls[..f]))
         + Ending(calls, f, refused, Closing(scrollErr, refused, removeOk))
  {
    DeletesLayout(calls, 0, fails, refused, Closing(scrollErr, refused, removeOk));
  }

  /** Indexing into three runs laid end to end. */
  lemma Index3<T>(t: seq<T>, a: seq<T>, b: seq<T>, c: seq<T>)
    requires t == (a + b) + c
    ensures |t| == |a| + |b| + |c|
    ensures forall i | 0 <= i < |a| :: t[i] == a[i]
    ensures forall i | 0 <= i < |b| :: t[|a| + i] == b[i]
    ensures forall i | 0 <= i < |c| :: t[|a| + |b| + i] == c[i]
  {
  }

  /** `DeleteTrace` position by position: the two head events, request `i`
      at position `i + 2` for each accepted `i`, then the ending. */
  lemma DeleteTraceAt(calls: seq<seq<string>>, scrollErr: bool, fails: set<nat>, refused: set<int>, removeOk: bool)
    ensures var f := FirstFailure(|calls|, 0, fails);
      var t := DeleteTrace(calls, scrollErr, fails, refused, removeOk);
      var e := Ending(calls, f, refused, Closing(scrollErr, refused, removeOk));
      && |t| == 2 + f + |e|
      && t[0] == SetBusy(true) && t[1] == Write(Deleting, refused)
      && (forall i | 2 <= i < 2 + f :: t[i] == BulkDelete(calls[i - 2], true))
      && (forall i | 0 <= i < |e| :: t[2 + f + i] == e[i])
  {
    var f := FirstFailure(|calls|, 0, fails);
    var t := DeleteTrace(calls, scrollErr, fails, refused, removeOk);
    var e := Ending(calls, f, refused, Closing(scrollErr, refused, removeOk));
    DeleteTraceSplit(calls, scrollErr, fails, refused, removeOk);
    RequestsAt(calls[..f]);
    Index3(t, [SetBusy(true), Write(Deleting, refused)], Requests(calls[..f]), e);
    forall i | 2 <= i < 2 + f ensures t[i] == BulkDelete(calls[i - 2], true) {
      assert t[2 + (i - 2)] == Requests(calls[..f])[i - 2];
    }
  }

  /** The busy flag is set first and the status goes to Deleting before
      any request; the flag is touched again only as the last event, when
      the scroll ended and every request was accepted, which is then
      preceded by the refresh and the removal of the status document.
      Refused status writes and a refused removal change none of this. */
  lemma DeleteTraceOrder(calls: seq<seq<string>>, scrollErr: bool, fails: set<nat>, refused: set<int>, removeOk: bool)
    ensures var f := FirstFailure(|calls|, 0, fails);
      var t := DeleteTrace(calls, scrollErr, fails, refused, removeOk);
      && |t| >= 3 && t[0] == SetBusy(true) && t[1] == Write(Deleting, refused)
      && (forall i | 1 <= i < |t| - 1 :: !t[i].SetBusy?)
      && (t[|t| - 1] == SetBusy(false) <==> f == |calls| && !scrollErr)
      && (f == |calls| && !scrollErr ==> t[|t| - 3..] == [Refresh, RemoveStatus(removeOk), SetBusy(false)])
  {
    var f := FirstFailure(|calls|, 0, fails);
    DeleteTraceAt(calls, scrollErr, fails, refused, removeOk);
    EndingShape(calls, f, scrollErr, refused, removeOk);
    TraceShape(DeleteTrace(calls, scrollErr, fails, refused, removeOk),
               Ending(calls, f, refused, Closing(scrollErr, refused, removeOk)), f, f == |calls| && !scrollErr,
               refused, removeOk);
  }

  /** The endings: never the busy flag except as the last event, which
      clears it exactly after a clean end of the scroll. */
  lemma EndingShape(calls: seq<seq<string>>, f: nat, scrollErr: bool, refused: set<int>, removeOk: bool)
    requires f <= |calls|
    ensures var e := Ending(calls, f, refused, Closing(scrollErr, refused, removeOk));
      && |e| >= 1 && (forall i | 0 <= i < |e| - 1 :: !e[i].SetBusy?)
      && (e[|e| - 1] == SetBusy(false) <==> f == |calls| && !scrollErr)
      && (f == |calls| && !scrollErr ==> e == [Refresh, RemoveStatus(removeOk), SetBusy(false)])
  {
  }

  /** The order facts of `DeleteTraceOrder` for any trace laid out as two
      head events, requests, then an ending of that shape. */
  lemma TraceShape(t: seq<Event>, e: seq<Event>, f: nat, clean: bool, refused: set<int>, removeOk: bool)
    requires |t| == 2 + f + |e| && t[0] == SetBusy(true) && t[1] == Write(Deleting, refused)
    requires forall i | 2 <= i < 2 + f :: t[i].BulkDelete?
    requires forall i | 0 <= i < |e| :: t[2 + f + i] == e[i]
    requires |e| >= 1 && forall i | 0 <= i < |e| - 1 :: !e[i].SetBusy?
    requires e[|e| - 1] == SetBusy(false) <==> clean
    requires clean ==> e == [Refresh, RemoveStatus(removeOk), SetBusy(false)]
    ensures |t| >= 3
    ensures forall i | 1 <= i < |t| - 1 :: !t[i].SetBusy?
    ensures t[|t| - 1] == SetBusy(false) <==> clean
    ensures clean ==> t[|t| - 3..] == [Refresh, RemoveStatus(removeOk), SetBusy(false)]
  {
    forall i | 1 <= i < |t| - 1 ensures !t[i].SetBusy? {
      if i >= 2 + f {
        assert t[2 + f + (i - 2 - f)] == e[i - 2 - f];
      }
    }
    assert t[2 + f + (|e| - 1)] == e[|e| - 1];
    if clean {
      assert t[2 + f + 0] == e[0] && t[2 + f + 1] == e[1];
    }
  }

  /** Every id the scroll returned is in one of the accepted requests when
      all are accepted. */
  lemma DeleteEntriesCover(pages: seq<seq<string>>, cSize: nat, fails: set<nat>, refused: set<int>, removeOk: bool)
    requires forall j | 0 <= j < |DeleteCalls(pages, cSize)| :: j !in fails
    ensures var calls := DeleteCalls(pages, cSize);
      var t := DeleteEntries(pages, cSize, false, fails, refused, removeOk);
      && |t| == |calls| + 5
      && forall x | x in Flatten(pages) ::
           exists i | 2 <= i < |t| - 3 :: t[i] == BulkDelete(calls[i - 2], true) && x in calls[i - 2]
  {
    var calls := DeleteCalls(pages, cSize);
    var t := DeleteEntries(pages, cSize, false, fails, refused, removeOk);
    AllAccepted(|calls|, 0, fails);
    DeleteTraceAt(calls, false, fails, refused, removeOk);
    DeleteCallsCover(pages, cSize);
    forall x | x in Flatten(pages)
      ensures exists i | 2 <= i < |t| - 3 :: t[i] == BulkDelete(calls[i - 2], true) && x in calls[i - 2]
    {
      FlattenMember(calls, x);
      var j :| 0 <= j < |calls| && x in calls[j];
      assert t[j + 2] == BulkDelete(calls[j], true);
    }
  }

  /** No refused request among `n` from `k`: all are made. */
  lemma AllAccepted(n: nat, k: nat, fails: set<nat>)
    requires forall j | k <= j < k + n :: j !in fails
    ensures FirstFailure(n, k, fails) == n
  {
  }

  /** Replaying `DeleteTrace`: the head and the accepted requests, then the
      ending. */
  lemma RunDeleteTrace(b: Backend, c: string, calls: seq<seq<string>>, scrollErr: bool, fails: set<nat>,
                       refused: set<int>, removeOk: bool)
    ensures var f := FirstFailure(|calls|, 0, fails);
      Run(b, c, DeleteTrace(calls, scrollErr, fails, refused, removeOk))
      == Run(Written(b, c, Deleting, refused).(busy := true, records := Without(b.records, Flatten(calls[..f]))),
             c, Ending(calls, f, refused, Closing(scrollErr, refused, removeOk)))
  {
    var f := FirstFailure(|calls|, 0, fails);
    var head := [SetBusy(true), Write(Deleting, refused)];
    var ending := Ending(calls, f, refused, Closing(scrollErr, refused, removeOk));
    DeleteTraceSplit(calls, scrollErr, fails, refused, removeOk);
    RunAppend(b, c, head + Requests(calls[..f]), ending);
    RunAppend(b, c, head, Requests(calls[..f]));
    RunHeadOfDelete(b, c, refused);
    RunRequests(Written(b, c, Deleting, refused).(busy := true), c, calls[..f]);
  }

  /** The effect of `DeleteTrace`, started once the busy flag is clear,
      when no request is refused: the ids of all requests are deleted.
      Without a scroll error the busy flag is cleared and the status
      document is gone when its removal is accepted, and otherwise left as
      the Deleting write left it. After a scroll error the flag stays set
      and the document carries the last status write the engine accepted. */
  lemma DeleteTraceCompletes(b: Backend, c: string, calls: seq<seq<string>>, scrollErr: bool, fails: set<nat>,
                             refused: set<int>, removeOk: bool)
    requires !b.busy
    requires forall j | 0 <= j < |calls| :: j !in fails
    ensures Run(b, c, DeleteTrace(calls, scrollErr, fails, refused, removeOk))
      == if scrollErr
         then Written(Written(b, c, Deleting, refused), c, Error, refused)
                .(records := Without(b.records, Flatten(calls)), busy := true)
         else b.(status := if removeOk then b.status - {c} else Written(b, c, Deleting, refused).status,
                 records := Without(b.records, Flatten(calls)), busy := false)
  {
    var deleting := Written(b, c, Deleting, refused);
    assert FirstFailure(|calls|, 0, fails) == |calls|;
    assert calls[..|calls|] == calls;
    RunDeleteTrace(b, c, calls, scrollErr, fails, refused, removeOk);
    var b3 := deleting.(busy := true, records := Without(b.records, Flatten(calls)));
    if scrollErr {
      RunWrite(b3, c, Error, refused, []);
    } else {
      RunClosing(b3, c, removeOk);
      MarkedRemoved(b, c, Deleting);
    }
  }

  /** Removing a document undoes a status write to it. */
  lemma MarkedRemoved(b: Backend, c: string, code: int)
    ensures Marked(b, c, code).status - {c} == b.status - {c}
  {
  }

  lemma RunHeadOfDelete(b: Backend, c: string, refused: set<int>)
    ensures Run(b, c, [SetBusy(true), Write(Deleting, refused)])
         == Written(b, c, Deleting, refused).(busy := true)
  {
    var deleting := Write(Deleting, refused);
    assert [SetBusy(true), deleting] == [SetBusy(true)] + ([deleting] + []);
    RunCons(b, c, SetBusy(true), [deleting] + []);
    RunWrite(b.(busy := true), c, Deleting, refused, []);
  }

  lemma RunClosing(b: Backend, c: string, removeOk: bool)
    ensures Run(b, c, [Refresh, RemoveStatus(removeOk), SetBusy(false)])
         == b.(status := if removeOk then b.status - {c} else b.status, busy := false)
  {
    var remove := RemoveStatus(removeOk);
    assert [Refresh, remove, SetBusy(false)] == [Refresh] + ([remove] + ([SetBusy(false)] + []));
    RunCons(b, c, Refresh, [remove] + ([SetBusy(false)] + []));
    RunCons(b, c, remove, [SetBusy(false)] + []);
    RunCons(Apply(b, c, remove), c, SetBusy(false), []);
  }

  /** The effect of `DeleteTrace`, started once the busy flag is clear,
      when request number `f` is the first one refused: the ids of the
      earlier requests are deleted, the status document stays and carries
      the last status write the engine accepted (Error when that write is
      accepted), and the busy flag stays set. */
  lemma DeleteTraceFails(b: Backend, c: string, calls: seq<seq<string>>, scrollErr: bool, fails: set<nat>,
                         refused: set<int>, removeOk: bool, f: nat)
    requires !b.busy
    requires f < |calls| && f in fails
    requires forall j | 0 <= j < f :: j !in fails
    ensures Run(b, c, DeleteTrace(calls, scrollErr, fails, refused, removeOk))
         == Written(Written(b, c, Deleting, refused), c, Error, refused)
              .(records := Without(b.records, Flatten(calls[..f])), busy := true)
  {
    var deleting := Written(b, c, Deleting, refused);
    FirstFailureIs(|calls|, 0, fails, f);
    RunDeleteTrace(b, c, calls, scrollErr, fails, refused, removeOk);
    RunRefused(deleting.(busy := true, records := Without(b.records, Flatten(calls[..f]))), c, calls[f], refused);
  }

  lemma RunRefused(b: Backend, c: string, ids: seq<string>, refused: set<int>)
    ensures Run(b, c, [BulkDelete(ids, false), Write(Error, refused)]) == Written(b, c, Error, refused)
  {
    var error := Write(Error, refused);
    assert [BulkDelete(ids, false), error] == [BulkDelete(ids, false)] + ([error] + []);
    RunCons(b, c, BulkDelete(ids, false), [error] + []);
    RunWrite(b, c, Error, refused, []);
  }

  /** `FirstFailure` is the least refused number. */
  lemma {:induction false} FirstFailureIs(n: nat, k: nat, fails: set<nat>, f: nat)
    requires f < n && k + f in fails
    requires forall j | k <= j < k + f :: j !in fails
    ensures FirstFailure(n, k, fails) == f
    decreases n
  {
    if f > 0 {
      FirstFailureIs(n - 1, k + 1, fails, f - 1);
    }
  }

  /** Deleting ids depends only on which ids are listed. */
  lemma WithoutSameIds(records: map<string, Parser.Entry>, a: seq<string>, b: seq<string>)
    requires forall x :: x in a <==> x in b
    ensures Without(records, a) == Without(records, b)
  {
  }

  /** Deleting exactly the ids of the file `c` leaves the other files' entries. */
  lemma WithoutFile(records: map<string, Parser.Entry>, ids: seq<string>, c: string)
    requires forall x :: x in ids <==> x in records && records[x].originId == c
    ensures Without(records, ids) == map k | k in records && records[k].originId != c :: records[k]
  {
  }

  /** When the scroll lists exactly the entries of the file `c`, no request
      is refused and the busy flag is clear at the start, `DeleteEntries` as
      written and with the chunk emptied after each page leave the same
      engine: the file's entries gone, every other entry as it was, the busy
      flag cleared. The status document is gone when the engine accepts its
      removal; when it refuses it, the document stays, at Deleting unless
      that write was refused too, and every other document is as it was. */
  lemma DeleteEntriesRemovesFile(b: Backend, c: string, pages: seq<seq<string>>, cSize: nat, fails: set<nat>,
                                 refused: set<int>, removeOk: bool)
    requires !b.busy
    requires forall x :: x in Flatten(pages) <==> x in b.records && b.records[x].originId == c
    requires forall j | 0 <= j < |DeleteCalls(pages, cSize)| :: j !in fails
    requires forall j | 0 <= j < |IntendedDeleteCalls(pages, cSize)| :: j !in fails
    ensures var r := Run(b, c, DeleteEntries(pages, cSize, false, fails, refused, removeOk));
      && r == Run(b, c, IntendedDeleteEntries(pages, cSize, false, fails, refused, removeOk))
      && r.records == (map k | k in b.records && b.records[k].originId != c :: b.records[k])
      && (removeOk ==> r.status == b.status - {c})
      && (!removeOk ==>
            && r.status.Keys == b.status.Keys
            && (c in b.status ==>
                  r.status[c] == if Deleting in refused then b.status[c] else Sweep.Mark(b.status[c], Deleting))
            && forall k | k in b.status && k != c :: r.status[k] == b.status[k])
      && !r.busy && r.locked == b.locked
  {
    var calls := DeleteCalls(pages, cSize);
    var intended := IntendedDeleteCalls(pages, cSize);
    DeleteTraceCompletes(b, c, calls, false, fails, refused, removeOk);
    DeleteTraceCompletes(b, c, intended, false, fails, refused, removeOk);
    DeleteCallsCover(pages, cSize);
    IntendedDeleteCallsExact(pages, cSize);
    WithoutSameIds(b.records, Flatten(calls), Flatten(pages));
    WithoutFile(b.records, Flatten(pages), c);
  }

  // ---------------------------------------------------------------------
  // The earlier version (internal/elastic/esapi.go)

  /** `ChunkSize` of internal/elastic/clean.go, the earlier version's
      chunk bound. */
  const LegacyChunkSize := 1000

  /** Every request of the earlier version, refused ones included: a
      refusal is only logged. */
  function LegacyRequests(calls: seq<seq<string>>, k: nat, fails: set<nat>): (t: seq<Event>)
    ensures |t| == |calls|
    ensures forall i | 0 <= i < |t| :: t[i] == BulkDelete(calls[i], k + i !in fails)
    decreases |calls|
  {
    if |calls| == 0 then [] else [BulkDelete(calls[0], k !in fails)] + LegacyRequests(calls[1..], k + 1, fails)
  }

  /** The chunks of the accepted requests. */
  function AcceptedCalls(calls: seq<seq<string>>, k: nat, fails: set<nat>): seq<seq<string>>
    decreases |calls|
  {
    if |calls| == 0 then []
    else (if k in fails then [] else [calls[0]]) + AcceptedCalls(calls[1..], k + 1, fails)
  }

  /** The earlier `DeleteEntries` over the requests `calls`: status 2,
      every request in turn, then the refresh and the removal of the status
      document; a scroll error stops the process after the pages already
      read. The errors of the status write and of the removal are ignored. */
  function LegacyTrace(calls: seq<seq<string>>, scrollErr: bool, fails: set<nat>, refused: set<int>,
                       removeOk: bool): seq<Event>
  {
    [Write(LegacyDeleting, refused)]
    + LegacyRequests(calls, 0, fails)
    + (if scrollErr then [] else [Refresh, RemoveStatus(removeOk)])
  }

  /** The earlier `DeleteEntries`, batching with `ChunkSize`. */
  function LegacyDeleteEntries(pages: seq<seq<string>>, scrollErr: bool, fails: set<nat>, refused: set<int>,
                               removeOk: bool): seq<Event>
  {
    LegacyTrace(DeleteCalls(pages, LegacyChunkSize), scrollErr, fails, refused, removeOk)
  }

  /** Replaying the earlier version's requests deletes the ids of the
      accepted ones. */
  lemma {:induction false} RunLegacyRequests(b: Backend, c: string, calls: seq<seq<string>>, k: nat, fails: set<nat>)
    ensures Run(b, c, LegacyRequests(calls, k, fails))
         == b.(records := Without(b.records, Flatten(AcceptedCalls(calls, k, fails))))
    decreases |calls|
  {
    if |calls| == 0 {
      assert Without(b.records, []) == b.records;
    } else {
      var ev := BulkDelete(calls[0], k !in fails);
      var rest := AcceptedCalls(calls[1..], k + 1, fails);
      RunCons(b, c, ev, LegacyRequests(calls[1..], k + 1, fails));
      if k in fails {
        RunLegacyRequests(b, c, calls[1..], k + 1, fails);
        assert AcceptedCalls(calls, k, fails) == rest;
      } else {
        ApplyBulkDelete(b, c, calls[0]);
        RunLegacyRequests(Apply(b, c, ev), c, calls[1..], k + 1, fails);
        WithoutAppend(b.records, calls[0], Flatten(rest));
        assert AcceptedCalls(calls, k, fails) == [calls[0]] + rest;
        assert Flatten([calls[0]] + rest) == calls[0] + Flatten(rest);
      }
    }
  }

  /** The accepted chunks are among all chunks, and are all of them when
      none is refused. */
  lemma {:induction false} AcceptedCallsWithin(calls: seq<seq<string>>, k: nat, fails: set<nat>)
    ensures forall x | x in Flatten(AcceptedCalls(calls, k, fails)) :: x in Flatten(calls)
    ensures (forall j | k <= j < k + |calls| :: j !in fails) ==> AcceptedCalls(calls, k, fails) == calls
    decreases |calls|
  {
    if |calls| > 0 {
      AcceptedCallsWithin(calls[1..], k + 1, fails);
      var rest := AcceptedCalls(calls[1..], k + 1, fails);
      if k in fails {
        assert AcceptedCalls(calls, k, fails) == rest;
      } else {
        assert AcceptedCalls(calls, k, fails) == [calls[0]] + rest;
        assert Flatten([calls[0]] + rest) == calls[0] + Flatten(rest);
      }
      assert calls == [calls[0]] + calls[1..];
    }
  }

  /** Replaying the earlier version to the end of the scroll: the status
      document is removed when the engine accepts the removal, and
      otherwise left as the status-2 write left it; the ids of the accepted
      requests are deleted. */
  lemma RunLegacyTrace(b: Backend, c: string, calls: seq<seq<string>>, fails: set<nat>, refused: set<int>,
                       removeOk: bool)
    ensures Run(b, c, LegacyTrace(calls, false, fails, refused, removeOk))
      == b.(status := if removeOk then b.status - {c} else Written(b, c, LegacyDeleting, refused).status,
            records := Without(b.records, Flatten(AcceptedCalls(calls, 0, fails))))
  {
    var reqs := LegacyRequests(calls, 0, fails);
    var b1 := Written(b, c, LegacyDeleting, refused);
    var closing := [Refresh, RemoveStatus(removeOk)];
    assert LegacyTrace(calls, false, fails, refused, removeOk) == [Write(LegacyDeleting, refused)] + (reqs + closing);
    RunWrite(b, c, LegacyDeleting, refused, reqs + closing);
    RunAppend(b1, c, reqs, closing);
    RunLegacyRequests(b1, c, calls, 0, fails);
    RunRefreshRemove(b1.(records := Without(b.records, Flatten(AcceptedCalls(calls, 0, fails)))), c, removeOk);
    MarkedRemoved(b, c, LegacyDeleting);
  }

  lemma RunRefreshRemove(b: Backend, c: string, removeOk: bool)
    ensures Run(b, c, [Refresh, RemoveStatus(removeOk)]) == if removeOk then b.(status := b.status - {c}) else b
  {
    var remove := RemoveStatus(removeOk);
    assert [Refresh, remove] == [Refresh] + ([remove] + []);
    RunCons(b, c, Refresh, [remove] + []);
    RunCons(b, c, remove, []);
  }

  /** The earlier version removes the status document, when the engine
      accepts the removal, whether or not requests were refused; when the
      removal is refused the document stays, at status 2 unless that write
      was refused too. It deletes only ids the scroll returned, and all of
      them when no request is refused; the gates are untouched. */
  lemma LegacyDeleteEntriesEffect(b: Backend, c: string, pages: seq<seq<string>>, fails: set<nat>, refused: set<int>,
                                  removeOk: bool)
    ensures var r := Run(b, c, LegacyDeleteEntries(pages, false, fails, refused, removeOk));
      && (removeOk ==> r.status == b.status - {c})
      && (!removeOk ==>
            && r.status.Keys == b.status.Keys
            && (c in b.status ==>
                  r.status[c] == if LegacyDeleting in refused then b.status[c] else Sweep.Mark(b.status[c], LegacyDeleting))
            && forall k | k in b.status && k != c :: r.status[k] == b.status[k])
      && (forall k | k in r.records :: k in b.records && r.records[k] == b.records[k])
      && (forall k | k in b.records && k !in Flatten(pages) :: k in r.records)
      && ((forall j | 0 <= j < |DeleteCalls(pages, LegacyChunkSize)| :: j !in fails) ==>
            r.records == Without(b.records, Flatten(pages)))
      && r.busy == b.busy && r.locked == b.locked
  {
    var calls := DeleteCalls(pages, LegacyChunkSize);
    RunLegacyTrace(b, c, calls, fails, refused, removeOk);
    AcceptedCallsWithin(calls, 0, fails);
    DeleteCallsCover(pages, LegacyChunkSize);
    if forall j | 0 <= j < |calls| :: j !in fails {
      WithoutSameIds(b.records, Flatten(calls), Flatten(pages));
    }
  }
}
