/** The start-up sweeps that mark interrupted work as failed: `cleanStatus`
    in internal/esapi/clean.go and internal/elastic/clean.go, and
    `cleanHistory` in elastic/clean.go. Each makes two scroll passes over a
    status index, one per unfinished status, and gives every hit a
    status-only update to the error code; a failed update is logged and the
    pass goes on. A scroll is modelled by the ids it returns, in order. */
module Sweep {
  import opened Wrappers
  import opened StatusStore

  /** `x` with its status replaced by `code`. */
  function Mark(x: Stored, code: int): Stored
  {
    x.(doc := x.doc.(status := code))
  }

  /** One scroll pass: update each hit in turn to `code`. The update of an
      id in `fails` is refused by the engine; the pass carries on. */
  function Pass(s: Store, hits: seq<string>, code: int, fails: set<string>): (r: Store)
    ensures r.Keys == s.Keys
  {
    if |hits| == 0 then s
    else
      var next := match UpdateUploadStatus(s, hits[0], code, hits[0] !in fails)
                  case Ok(u) => u
                  case Err(_) => s;
      Pass(next, hits[1..], code, fails)
  }

  /** Reference for a pass: every listed id whose update succeeds is
      marked, every other document is left as it was. */
  function Rewritten(s: Store, hits: seq<string>, code: int, fails: set<string>): Store
  {
    map k | k in s :: if k in hits && k !in fails then Mark(s[k], code) else s[k]
  }

  lemma {:induction false} PassIsRewritten(s: Store, hits: seq<string>, code: int, fails: set<string>)
    ensures Pass(s, hits, code, fails) == Rewritten(s, hits, code, fails)
  {
    if |hits| > 0 {
      var h := hits[0];
      var next := match UpdateUploadStatus(s, h, code, h !in fails)
                  case Ok(u) => u
                  case Err(_) => s;
      PassIsRewritten(next, hits[1..], code, fails);
      RewrittenStep(s, next, h, hits[1..], code, fails);
      assert hits == [h] + hits[1..];
    }
  }

  lemma RewrittenStep(s: Store, next: Store, h: string, rest: seq<string>, code: int, fails: set<string>)
    requires next == (if h in s && h !in fails then s[h := Mark(s[h], code)] else s)
    ensures Rewritten(next, rest, code, fails) == Rewritten(s, [h] + rest, code, fails)
  {
    var a := Rewritten(next, rest, code, fails);
    var b := Rewritten(s, [h] + rest, code, fails);
    assert a.Keys == b.Keys;
    forall k | k in a ensures a[k] == b[k] {
      assert k in [h] + rest <==> k == h || k in rest;
    }
  }

  /** `hits` are exactly the ids of the documents of `s` with status `code`:
      what a scroll over the match query `status == code` returns. */
  predicate Lists(hits: seq<string>, s: Store, code: int)
  {
    && (forall k | k in hits :: k in s && s[k].doc.status == code)
    && (forall k | k in s && s[k].doc.status == code :: k in hits)
  }

  /** Two passes, the second scrolling the store the first one left. */
  function TwoPass(s: Store, hits1: seq<string>, hits2: seq<string>, code: int, fails: set<string>): Store
  {
    Pass(Pass(s, hits1, code, fails), hits2, code, fails)
  }

  /** Reference for a sweep: every document whose status is `first` or
      `second` is marked `code`, unless its update fails. */
  function Swept(s: Store, first: int, second: int, code: int, fails: set<string>): Store
  {
    map k | k in s :: if (s[k].doc.status == first || s[k].doc.status == second) && k !in fails
                      then Mark(s[k], code) else s[k]
  }

  /** Two passes over the scrolls of `first` and then `second` are the
      reference sweep, whatever the three codes are. */
  lemma TwoPassIsSwept(s: Store, first: int, second: int, code: int,
                       hits1: seq<string>, hits2: seq<string>, fails: set<string>)
    requires Lists(hits1, s, first)
    requires Lists(hits2, Pass(s, hits1, code, fails), second)
    ensures TwoPass(s, hits1, hits2, code, fails) == Swept(s, first, second, code, fails)
  {
    var mid := Pass(s, hits1, code, fails);
    PassIsRewritten(s, hits1, code, fails);
    PassIsRewritten(mid, hits2, code, fails);
    var r := Rewritten(mid, hits2, code, fails);
    var w := Swept(s, first, second, code, fails);
    assert r.Keys == w.Keys;
    forall k | k in r ensures r[k] == w[k] {
      if k in hits1 && k !in fails {
        assert mid[k] == Mark(s[k], code);
      } else {
        assert mid[k] == s[k];
      }
    }
  }

  /** Once swept, a store is left alone by a second sweep when the error
      code is neither swept status. */
  lemma SweptIdempotent(s: Store, first: int, second: int, code: int, fails: set<string>)
    requires code != first && code != second
    ensures Swept(Swept(s, first, second, code, fails), first, second, code, fails)
         == Swept(s, first, second, code, fails)
  {
    var once := Swept(s, first, second, code, fails);
    var twice := Swept(once, first, second, code, fails);
    assert twice.Keys == once.Keys;
    forall k | k in once ensures twice[k] == once[k] {
    }
  }

  // ---------------------------------------------------------------------
  // The three sweeps

  /** `cleanStatus` of internal/esapi: Processing, then Deleting, to Error. */
  function CleanStatus(s: Store, processing: seq<string>, deleting: seq<string>, fails: set<string>): Store
  {
    TwoPass(s, processing, deleting, Error, fails)
  }

  /** What `cleanStatus` leaves: no Processing or Deleting document except
      those whose update failed; each rewritten document has exactly Error
      and its other fields; every other document, a stale Enqueued one
      included, is unchanged; no key is added or removed. */
  lemma CleanStatusEffect(s: Store, processing: seq<string>, deleting: seq<string>, fails: set<string>)
    requires Lists(processing, s, Processing)
    requires Lists(deleting, Pass(s, processing, Error, fails), Deleting)
    ensures CleanStatus(s, processing, deleting, fails).Keys == s.Keys
    ensures forall k | k in s && k !in fails ::
              && CleanStatus(s, processing, deleting, fails)[k].doc.status != Processing
              && CleanStatus(s, processing, deleting, fails)[k].doc.status != Deleting
    ensures forall k | k in s && (s[k].doc.status == Processing || s[k].doc.status == Deleting) && k !in fails ::
              CleanStatus(s, processing, deleting, fails)[k] == Mark(s[k], Error)
    ensures forall k | k in s && s[k].doc.status != Processing && s[k].doc.status != Deleting ::
              CleanStatus(s, processing, deleting, fails)[k] == s[k]
    ensures forall k | k in s && k in fails :: CleanStatus(s, processing, deleting, fails)[k] == s[k]
  {
    TwoPassIsSwept(s, Processing, Deleting, Error, processing, deleting, fails);
  }

  /** Sweeping twice gives the store a single sweep gives. */
  lemma CleanStatusIdempotent(s: Store, p1: seq<string>, d1: seq<string>,
                              p2: seq<string>, d2: seq<string>, fails: set<string>)
    requires Lists(p1, s, Processing)
    requires Lists(d1, Pass(s, p1, Error, fails), Deleting)
    requires Lists(p2, CleanStatus(s, p1, d1, fails), Processing)
    requires Lists(d2, Pass(CleanStatus(s, p1, d1, fails), p2, Error, fails), Deleting)
    ensures CleanStatus(CleanStatus(s, p1, d1, fails), p2, d2, fails) == CleanStatus(s, p1, d1, fails)
  {
    TwoPassIsSwept(s, Processing, Deleting, Error, p1, d1, fails);
    TwoPassIsSwept(CleanStatus(s, p1, d1, fails), Processing, Deleting, Error, p2, d2, fails);
    SweptIdempotent(s, Processing, Deleting, Error, fails);
  }

  /** `cleanStatus` of internal/elastic: status 0, then 2, to -1. */
  function LegacyCleanStatus(s: Store, processing: seq<string>, deleting: seq<string>, fails: set<string>): Store
  {
    TwoPass(s, processing, deleting, LegacyError, fails)
  }

  /** What the legacy `cleanStatus` leaves: no 0 or 2 except failed
      updates, swept documents at -1, the rest and the key set unchanged. */
  lemma LegacyCleanStatusEffect(s: Store, processing: seq<string>, deleting: seq<string>, fails: set<string>)
    requires Lists(processing, s, LegacyProcessing)
    requires Lists(deleting, Pass(s, processing, LegacyError, fails), LegacyDeleting)
    ensures LegacyCleanStatus(s, processing, deleting, fails).Keys == s.Keys
    ensures forall k | k in s && k !in fails ::
              && LegacyCleanStatus(s, processing, deleting, fails)[k].doc.status != LegacyProcessing
              && LegacyCleanStatus(s, processing, deleting, fails)[k].doc.status != LegacyDeleting
    ensures forall k | k in s && (s[k].doc.status == LegacyProcessing || s[k].doc.status == LegacyDeleting) && k !in fails ::
              LegacyCleanStatus(s, processing, deleting, fails)[k] == Mark(s[k], LegacyError)
    ensures forall k | k in s && ((s[k].doc.status != LegacyProcessing && s[k].doc.status != LegacyDeleting) || k in fails) ::
              LegacyCleanStatus(s, processing, deleting, fails)[k] == s[k]
  {
    TwoPassIsSwept(s, LegacyProcessing, LegacyDeleting, LegacyError, processing, deleting, fails);
  }

  /** `cleanHistory` of elastic/clean.go: the same two passes over the
      history index, each hit updated through `UpdateHistoryStatus`, which
      is taken to be the same status-only update. */
  function CleanHistory(h: Store, processing: seq<string>, deleting: seq<string>, fails: set<string>): Store
  {
    TwoPass(h, processing, deleting, LegacyError, fails)
  }

  /** What `cleanHistory` leaves: no 0 or 2 except failed updates, swept
      documents at -1, the rest and the key set unchanged. */
  lemma CleanHistoryEffect(h: Store, processing: seq<string>, deleting: seq<string>, fails: set<string>)
    requires Lists(processing, h, LegacyProcessing)
    requires Lists(deleting, Pass(h, processing, LegacyError, fails), LegacyDeleting)
    ensures CleanHistory(h, processing, deleting, fails).Keys == h.Keys
    ensures forall k | k in h && k !in fails ::
              && CleanHistory(h, processing, deleting, fails)[k].doc.status != LegacyProcessing
              && CleanHistory(h, processing, deleting, fails)[k].doc.status != LegacyDeleting
    ensures forall k | k in h && (h[k].doc.status == LegacyProcessing || h[k].doc.status == LegacyDeleting) && k !in fails ::
              CleanHistory(h, processing, deleting, fails)[k] == Mark(h[k], LegacyError)
    ensures forall k | k in h && ((h[k].doc.status != LegacyProcessing && h[k].doc.status != LegacyDeleting) || k in fails) ::
              CleanHistory(h, processing, deleting, fails)[k] == h[k]
  {
    TwoPassIsSwept(h, LegacyProcessing, LegacyDeleting, LegacyError, processing, deleting, fails);
  }

  /** A failed update does not stop the sweep: with one Processing
      document refused and another accepted, the second is still marked. */
  lemma FailureDoesNotStopSweep(d: StatusDoc, e: StatusDoc)
    requires d.status == Processing && e.status == Processing
    ensures var s := map["a" := Stored(d, true), "b" := Stored(e, true)];
            CleanStatus(s, ["a", "b"], [], {"a"}) == map["a" := Stored(d, true), "b" := Stored(e.(status := Error), true)]
  {
    var s := map["a" := Stored(d, true), "b" := Stored(e, true)];
    var afterA := s;
    var afterB := s["b" := Mark(s["b"], Error)];
    assert ["a", "b"][1..] == ["b"];
    assert Pass(s, ["a", "b"], Error, {"a"}) == Pass(afterA, ["b"], Error, {"a"});
    assert Pass(afterA, ["b"], Error, {"a"}) == Pass(afterB, [], Error, {"a"});
    assert afterB == map["a" := Stored(d, true), "b" := Stored(e.(status := Error), true)];
  }
}
