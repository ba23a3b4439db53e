/** The ingestion line loop shared by `processEntry` (internal/api/analyze.go)
    and `IndexFile` (internal/esapi/bulk.go), and the batching done by each
    `uploader` worker. Goroutines and channels are replaced by sequences:
    the loop yields the entries it hands over, a worker is a function of the
    values it receives. */
module Ingest {
  import opened Wrappers
  import opened Parser

  /** Every entry `ParseEntry` yields for `lines`, in file order. */
  function ParsedAll(p: Parser, lines: seq<string>): seq<Entry>
  {
    if |lines| == 0 then []
    else
      (match ParseEntry(p, lines[0]) case Some(e) => [e] case None => [])
      + ParsedAll(p, lines[1..])
  }

  lemma {:induction false} ParsedAllAppend(p: Parser, xs: seq<string>, ys: seq<string>)
    ensures ParsedAll(p, xs + ys) == ParsedAll(p, xs) + ParsedAll(p, ys)
  {
    if |xs| > 0 {
      assert (xs + ys)[0] == xs[0];
      assert (xs + ys)[1..] == xs[1..] + ys;
      ParsedAllAppend(p, xs[1..], ys);
    } else {
      assert xs + ys == ys;
    }
  }

  /** The scanner loop as written: a line is skipped while `current` is
      below `Start`, and `current` only advances after an entry has been
      handed over. */
  function LineLoop(p: Parser, lines: seq<string>, current: int): (r: seq<Entry>)
    ensures current >= p.start ==> r == ParsedAll(p, lines)
    ensures current < p.start ==> r == []
  {
    if |lines| == 0 then []
    else if current < p.start then LineLoop(p, lines[1..], current)
    else
      match ParseEntry(p, lines[0])
      case None => LineLoop(p, lines[1..], current)
      case Some(e) => [e] + LineLoop(p, lines[1..], current + 1)
  }

  /** The entries the loop hands to the workers, starting from `currentLine := 0`. */
  function Forwarded(p: Parser, lines: seq<string>): seq<Entry>
  {
    LineLoop(p, lines, 0)
  }

  /** With `Start <= 0` every line that parses is handed over, in file order. */
  lemma ForwardedWhenStartNotPositive(p: Parser, lines: seq<string>)
    requires p.start <= 0
    ensures Forwarded(p, lines) == ParsedAll(p, lines)
    ensures |Forwarded(p, lines)| == |lines| - CountEmpty(lines)
  {
    ParsedAllLength(p, lines);
  }

  /** With `Start > 0` nothing at all is handed over. */
  lemma ForwardedWhenStartPositive(p: Parser, lines: seq<string>)
    requires p.start > 0
    ensures Forwarded(p, lines) == []
  {
  }

  function CountEmpty(lines: seq<string>): nat
  {
    if |lines| == 0 then 0 else (if |lines[0]| == 0 then 1 else 0) + CountEmpty(lines[1..])
  }

  /** Only empty lines are dropped by `ParseEntry`. */
  lemma {:induction false} ParsedAllLength(p: Parser, lines: seq<string>)
    ensures |ParsedAll(p, lines)| == |lines| - CountEmpty(lines)
    ensures CountEmpty(lines) <= |lines|
  {
    if |lines| > 0 {
      ParsedAllLength(p, lines[1..]);
    }
  }

  /** The loop as evidently intended: `current` counts lines, so the first
      `Start` lines are skipped and every later line is parsed. */
  function LineLoopIntended(p: Parser, lines: seq<string>, current: int): (r: seq<Entry>)
    ensures r == ParsedAll(p, lines[Skipped(p.start - current, |lines|)..])
    decreases |lines|
  {
    if |lines| == 0 then []
    else if current < p.start then
      var r := LineLoopIntended(p, lines[1..], current + 1);
      assert lines[1..][Skipped(p.start - (current + 1), |lines| - 1)..]
          == lines[Skipped(p.start - current, |lines|)..];
      r
    else
      var r := (match ParseEntry(p, lines[0]) case Some(e) => [e] case None => [])
               + LineLoopIntended(p, lines[1..], current + 1);
      assert lines[Skipped(p.start - current, |lines|)..] == lines;
      r
  }

  /** How many lines a header of `n` lines removes from a file of `len` lines. */
  function Skipped(n: int, len: nat): (k: nat)
    ensures k <= len
  {
    if n <= 0 then 0 else if n >= len then len else n
  }

  /** The intended loop hands over exactly the parsed lines from index
      `Start` on, and agrees with the written loop when `Start <= 0`. */
  lemma IntendedLoopSkipsHeader(p: Parser, lines: seq<string>)
    ensures LineLoopIntended(p, lines, 0) == ParsedAll(p, lines[Skipped(p.start, |lines|)..])
    ensures p.start <= 0 ==> LineLoopIntended(p, lines, 0) == Forwarded(p, lines)
  {
  }

  /** A two-line file with a one-line header: the written loop hands over
      nothing, the intended one hands over the second line. */
  lemma HeaderSkipCounterexample(p: Parser)
    requires p.start == 1
    ensures Forwarded(p, ["header", "a"]) == []
    ensures LineLoopIntended(p, ["header", "a"], 0) == [ParseEntry(p, "a").value]
  {
    assert ["header", "a"][1..] == ["a"];
    assert ["a"][1..] == [];
  }

  // ---------------------------------------------------------------------
  // One worker: chunking into bulk insert requests

  /** The `BulkInsert` calls of one worker: the flushes made inside the loop
      and the remainder flushed after it (no call when empty). */
  datatype Flushes<T> = Flushes(full: seq<seq<T>>, last: seq<T>)
  {
    function Calls(): seq<seq<T>>
    {
      full + (if |last| > 0 then [last] else [])
    }
  }

  /** The worker loop: at the top of every iteration a chunk that reached
      `chunkSize` is flushed; then one value is received, nil values being
      skipped. When nothing is left the quit signal ends the loop. */
  function Uploader<T>(received: seq<Option<T>>, chunkSize: nat, chunk: seq<T>): (r: Flushes<T>)
    requires chunkSize >= 1 && |chunk| <= chunkSize
    ensures forall k | 0 <= k < |r.full| :: |r.full[k]| == chunkSize
    ensures |r.last| < chunkSize
    ensures Flatten(r.full) + r.last == chunk + Somes(received)
    decreases |received|, |chunk|
  {
    if |chunk| >= chunkSize then
      var rest := Uploader(received, chunkSize, []);
      FlushStep(chunk, rest.full, rest.last, Somes(received));
      Flushes([chunk] + rest.full, rest.last)
    else if |received| == 0 then Flushes([], chunk)
    else if received[0].None? then
      Uploader(received[1..], chunkSize, chunk)
    else
      var v := received[0].value;
      var rest := Uploader(received[1..], chunkSize, chunk + [v]);
      AppendAssoc(chunk, [v], Somes(received[1..]));
      rest
  }

  lemma FlushStep<T>(chunk: seq<T>, full: seq<seq<T>>, last: seq<T>, pending: seq<T>)
    requires Flatten(full) + last == [] + pending
    ensures Flatten([chunk] + full) + last == chunk + pending
  {
    assert ([chunk] + full)[1..] == full;
    assert Flatten([chunk] + full) == chunk + Flatten(full);
    assert [] + pending == pending;
  }

  lemma AppendAssoc<T>(a: seq<T>, b: seq<T>, c: seq<T>)
    ensures (a + b) + c == a + (b + c)
  {
  }

  /** The calls of a worker that starts with an empty chunk. */
  function WorkerCalls<T>(received: seq<Option<T>>, chunkSize: nat): seq<seq<T>>
    requires chunkSize >= 1
  {
    Uploader(received, chunkSize, []).Calls()
  }

  lemma {:induction false} FlattenLength<T>(xss: seq<seq<T>>, n: nat)
    requires forall k | 0 <= k < |xss| :: |xss[k]| == n
    ensures |Flatten(xss)| == |xss| * n
  {
    if |xss| > 0 {
      FlattenLength(xss[1..], n);
    }
  }

  /** A worker's calls, concatenated, are exactly the entries it received,
      in receipt order; a worker that received no entry makes no call. */
  lemma WorkerSendsWhatItReceived<T>(received: seq<Option<T>>, chunkSize: nat)
    requires chunkSize >= 1
    ensures Flatten(WorkerCalls(received, chunkSize)) == Somes(received)
    ensures |Somes(received)| == 0 <==> WorkerCalls(received, chunkSize) == []
  {
    var f := Uploader(received, chunkSize, []);
    var tail: seq<seq<T>> := if |f.last| > 0 then [f.last] else [];
    FlattenAppend(f.full, tail);
    assert Flatten(tail) == f.last by {
      if |f.last| > 0 {
        assert tail[1..] == [];
      }
    }
    if |f.full| > 0 {
      assert |Flatten(f.full)| >= |f.full[0]| == chunkSize;
    }
  }

  /** A worker that received `q * chunkSize + r` entries (`r < chunkSize`)
      makes exactly `q` full calls and, when `r > 0`, one final call of `r`
      entries. */
  lemma WorkerBatchCounts<T>(received: seq<Option<T>>, chunkSize: nat)
    requires chunkSize >= 1
    ensures |Uploader(received, chunkSize, []).full| == |Somes(received)| / chunkSize
    ensures |Uploader(received, chunkSize, []).last| == |Somes(received)| % chunkSize
  {
    var f := Uploader(received, chunkSize, []);
    FlattenLength(f.full, chunkSize);
    var total := |Somes(received)|;
    assert total == |f.full| * chunkSize + |f.last|;
    DivModUnique(total, chunkSize, |f.full|, |f.last|);
  }

  lemma DivModUnique(total: nat, d: nat, q: nat, r: nat)
    requires d >= 1 && r < d && total == q * d + r
    ensures q == total / d && r == total % d
  {
    var q' := total / d;
    var r' := total % d;
    assert total == q' * d + r';
    if q > q' {
      MulAtLeast(q - q', d);
    } else if q < q' {
      MulAtLeast(q' - q, d);
    }
  }

  lemma MulAtLeast(a: int, d: int)
    requires a >= 1 && d >= 1
    ensures a * d >= d
  {
  }

  // ---------------------------------------------------------------------
  // Fan-out: all workers together

  /** A positive chunk size. */
  type ChunkSize = n: nat | n >= 1 witness 1

  /** The handed-over entries in order, each paired with the worker that
      took it from the channel (the channel decides; the model takes any
      choice). */
  function Entries<T>(taken: seq<(T, nat)>): (r: seq<T>)
    ensures |r| == |taken|
    ensures forall k | 0 <= k < |r| :: r[k] == taken[k].0
  {
    if |taken| == 0 then [] else [taken[0].0] + Entries(taken[1..])
  }

  /** What worker `w` receives, in order. */
  function Received<T>(taken: seq<(T, nat)>, w: nat): seq<Option<T>>
  {
    if |taken| == 0 then []
    else if taken[0].1 == w then [Some(taken[0].0)] + Received(taken[1..], w)
    else Received(taken[1..], w)
  }

  /** What worker `w` sends to the index, all its calls together. */
  function SentBy<T>(taken: seq<(T, nat)>, chunkSize: ChunkSize, w: nat): seq<T>
  {
    Flatten(WorkerCalls(Received(taken, w), chunkSize))
  }

  /** The sum of `f(0) .. f(n-1)`. */
  function SumOver<T>(f: nat -> multiset<T>, n: nat): multiset<T>
  {
    if n == 0 then multiset{} else SumOver(f, n - 1) + f(n - 1)
  }

  function SentFamily<T>(taken: seq<(T, nat)>, chunkSize: ChunkSize): nat -> multiset<T>
  {
    (w: nat) => multiset(SentBy(taken, chunkSize, w))
  }

  function ReceivedFamily<T>(taken: seq<(T, nat)>): nat -> multiset<T>
  {
    (w: nat) => multiset(Somes(Received(taken, w)))
  }

  /** `x` for worker `who`, nothing for the others. */
  function OnlyFor<T>(x: T, who: nat): nat -> multiset<T>
  {
    (w: nat) => if w == who then multiset{x} else multiset{}
  }

  /** Everything workers `0 .. workers-1` send to the index. */
  function InsertedBy<T>(taken: seq<(T, nat)>, chunkSize: ChunkSize, workers: nat): multiset<T>
  {
    SumOver(SentFamily(taken, chunkSize), workers)
  }

  /** Everything workers `0 .. workers-1` receive, nil values aside. */
  function ReceivedBy<T>(taken: seq<(T, nat)>, workers: nat): multiset<T>
  {
    SumOver(ReceivedFamily(taken), workers)
  }

  lemma {:induction false} SumOverSame<T>(f: nat -> multiset<T>, g: nat -> multiset<T>, n: nat)
    requires forall w: nat | w < n :: f(w) == g(w)
    ensures SumOver(f, n) == SumOver(g, n)
  {
    if n > 0 {
      SumOverSame(f, g, n - 1);
    }
  }

  lemma {:induction false} SumOverAdd<T>(f: nat -> multiset<T>, g: nat -> multiset<T>, h: nat -> multiset<T>, n: nat)
    requires forall w: nat | w < n :: f(w) == g(w) + h(w)
    ensures SumOver(f, n) == SumOver(g, n) + SumOver(h, n)
  {
    if n > 0 {
      SumOverAdd(f, g, h, n - 1);
    }
  }

  lemma {:induction false} SumOverOnlyFor<T>(x: T, who: nat, n: nat)
    ensures SumOver(OnlyFor(x, who), n) == if who < n then multiset{x} else multiset{}
  {
    if n > 0 {
      SumOverOnlyFor(x, who, n - 1);
    }
  }

  lemma {:induction false} SumOverNothing<T>(f: nat -> multiset<T>, n: nat)
    requires forall w: nat | w < n :: f(w) == multiset{}
    ensures SumOver(f, n) == multiset{}
  {
    if n > 0 {
      SumOverNothing(f, n - 1);
    }
  }

  /** A worker's calls carry, as a multiset, exactly what it received. */
  lemma InsertedIsReceived<T>(taken: seq<(T, nat)>, chunkSize: ChunkSize, workers: nat)
    ensures InsertedBy(taken, chunkSize, workers) == ReceivedBy(taken, workers)
  {
    forall w: nat | w < workers
      ensures SentFamily(taken, chunkSize)(w) == ReceivedFamily(taken)(w)
    {
      WorkerSendsWhatItReceived(Received(taken, w), chunkSize);
    }
    SumOverSame(SentFamily(taken, chunkSize), ReceivedFamily(taken), workers);
  }

  /** What worker `w` receives, counted: the first entry if it took it,
      plus what it receives of the rest. */
  lemma ReceivedStep<T>(taken: seq<(T, nat)>, w: nat)
    requires |taken| > 0
    ensures ReceivedFamily(taken)(w) == ReceivedFamily(taken[1..])(w) + OnlyFor(taken[0].0, taken[0].1)(w)
  {
    var later := Received(taken[1..], w);
    if taken[0].1 == w {
      assert ([Some(taken[0].0)] + later)[1..] == later;
      assert Somes([Some(taken[0].0)] + later) == [taken[0].0] + Somes(later);
    }
  }

  /** Whatever the channel's choice of workers, every handed-over entry is
      received by exactly one worker. */
  lemma {:induction false} ReceivedByAll<T>(taken: seq<(T, nat)>, workers: nat)
    requires forall k | 0 <= k < |taken| :: taken[k].1 < workers
    ensures ReceivedBy(taken, workers) == multiset(Entries(taken))
  {
    if |taken| == 0 {
      SumOverNothing(ReceivedFamily(taken), workers);
    } else {
      forall w: nat | w < workers
        ensures ReceivedFamily(taken)(w) == ReceivedFamily(taken[1..])(w) + OnlyFor(taken[0].0, taken[0].1)(w)
      {
        ReceivedStep(taken, w);
      }
      SumOverAdd(ReceivedFamily(taken), ReceivedFamily(taken[1..]), OnlyFor(taken[0].0, taken[0].1), workers);
      SumOverOnlyFor(taken[0].0, taken[0].1, workers);
      ReceivedByAll(taken[1..], workers);
      assert Entries(taken) == [taken[0].0] + Entries(taken[1..]);
    }
  }

  /** Every handed-over entry is sent in exactly one `BulkInsert` call of
      exactly one worker (as a multiset: nothing lost, nothing duplicated),
      whichever worker took it. */
  lemma EveryEntryInsertedOnce<T>(taken: seq<(T, nat)>, chunkSize: ChunkSize, workers: nat)
    requires forall k | 0 <= k < |taken| :: taken[k].1 < workers
    ensures InsertedBy(taken, chunkSize, workers) == multiset(Entries(taken))
  {
    InsertedIsReceived(taken, chunkSize, workers);
    ReceivedByAll(taken, workers);
  }
}
