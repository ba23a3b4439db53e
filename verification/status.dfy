/** The status index of internal/esapi (status.go, utils.go): one document
    per uploaded file, keyed by the file checksum, as a map. Whether the
    search engine answers a request at all is a boolean parameter `ok`. */
module StatusStore {
  import opened Wrappers

  /** Upload status codes of internal/common/const.go. */
  const Processing := 0
  const Deleting := 1
  const Enqueued := 2
  const Error := 3
  const Complete := 4

  /** The codes of the earlier internal/elastic and elastic packages. */
  const LegacyProcessing := 0
  const LegacyComplete := 1
  const LegacyDeleting := 2
  const LegacyError := -1

  /** The fields of a status document (`common.Status`). */
  datatype StatusDoc = StatusDoc(date: string, filename: string, checksum: string, status: int)

  /** A stored document: its fields as the engine indexes them, and whether
      its JSON source decodes back into a `StatusDoc`. A source written by
      this package always decodes; one written by other means may not. */
  datatype Stored = Stored(doc: StatusDoc, decodes: bool)

  type Store = map<string, Stored>

  datatype StoreError = BackendFailed | NotFound | Undecodable

  /** `NewStatusDocument(h, c)`: index `h` under id `c`, replacing any
      document already there. */
  function NewStatusDocument(s: Store, h: StatusDoc, c: string, ok: bool): (r: Result<Store, StoreError>)
    ensures r.Ok? <==> ok
    ensures r.Err? ==> r.error == BackendFailed
    ensures r.Ok? ==> r.value.Keys == s.Keys + {c}
    ensures r.Ok? ==> r.value[c] == Stored(h, true)
    ensures r.Ok? ==> forall k | k in s && k != c :: r.value[k] == s[k]
  {
    if !ok then Err(BackendFailed) else Ok(s[c := Stored(h, true)])
  }

  /** `UpdateUploadStatus(c, status)`: a partial update of the `status`
      field of document `c`; updating a missing document is an error. */
  function UpdateUploadStatus(s: Store, c: string, status: int, ok: bool): (r: Result<Store, StoreError>)
    ensures r.Ok? <==> ok && c in s
    ensures !ok ==> r == Err(BackendFailed)
    ensures ok && c !in s ==> r == Err(NotFound)
    ensures r.Ok? ==> r.value.Keys == s.Keys
    ensures r.Ok? ==> && r.value[c].doc.status == status
                      && r.value[c].doc.date == s[c].doc.date
                      && r.value[c].doc.filename == s[c].doc.filename
                      && r.value[c].doc.checksum == s[c].doc.checksum
                      && r.value[c].decodes == s[c].decodes
    ensures r.Ok? ==> forall k | k in s && k != c :: r.value[k] == s[k]
  {
    if !ok then Err(BackendFailed)
    else if c !in s then Err(NotFound)
    else Ok(s[c := s[c].(doc := s[c].doc.(status := status))])
  }

  /** `GetDocumentStatus(c)`: the document stored under `c`. */
  function GetDocumentStatus(s: Store, c: string, ok: bool): (r: Result<StatusDoc, StoreError>)
    ensures r.Ok? <==> ok && c in s && s[c].decodes
    ensures r.Ok? ==> r.value == s[c].doc
    ensures ok && c in s && !s[c].decodes ==> r == Err(Undecodable)
  {
    if !ok then Err(BackendFailed)
    else if c !in s then Err(NotFound)
    else if !s[c].decodes then Err(Undecodable)
    else Ok(s[c].doc)
  }

  /** `IsAlreadyUploaded(c)`: whether a document with id `c` exists, with
      Go's `(false, err)` on a failed request. */
  function IsAlreadyUploaded(s: Store, c: string, ok: bool): (r: (bool, Option<StoreError>))
    ensures r.1.Some? <==> !ok
    ensures r.1.Some? ==> !r.0
    ensures r.1.None? ==> (r.0 <==> c in s)
  {
    if !ok then (false, Some(BackendFailed)) else (c in s, None)
  }

  /** A document written by `NewStatusDocument` reads back unchanged and
      makes `IsAlreadyUploaded` true, whatever was stored before. */
  lemma ReadAfterNew(s: Store, h: StatusDoc, c: string)
    ensures NewStatusDocument(s, h, c, true).Ok?
    ensures GetDocumentStatus(NewStatusDocument(s, h, c, true).value, c, true) == Ok(h)
    ensures IsAlreadyUploaded(NewStatusDocument(s, h, c, true).value, c, true) == (true, None)
  {
  }

  /** The last status update wins, and writing the current status again
      changes nothing. */
  lemma UpdateOverwrites(s: Store, c: string, a: int, b: int)
    requires c in s
    ensures UpdateUploadStatus(UpdateUploadStatus(s, c, a, true).value, c, b, true)
         == UpdateUploadStatus(s, c, b, true)
    ensures UpdateUploadStatus(s, c, s[c].doc.status, true) == Ok(s)
  {
    var twice := UpdateUploadStatus(UpdateUploadStatus(s, c, a, true).value, c, b, true).value;
    var direct := UpdateUploadStatus(s, c, b, true).value;
    assert twice[c] == direct[c];
    assert twice.Keys == direct.Keys;
    assert forall k | k in twice :: twice[k] == direct[k];
    assert twice == direct;
    assert s[c].(doc := s[c].doc.(status := s[c].doc.status)) == s[c];
    var same := UpdateUploadStatus(s, c, s[c].doc.status, true).value;
    assert same.Keys == s.Keys;
    assert forall k | k in s :: same[k] == s[k];
    assert same == s;
  }

  /** After a successful update, reading the document gives the old fields
      with the new status. */
  lemma ReadAfterUpdate(s: Store, c: string, status: int)
    requires c in s && s[c].decodes
    ensures GetDocumentStatus(UpdateUploadStatus(s, c, status, true).value, c, true)
         == Ok(s[c].doc.(status := status))
  {
  }

  // ---------------------------------------------------------------------
  // GetStatus: the status documents sorted by status, one page at a time

  /** One page of status documents and the total number of documents. */
  datatype StatusResult = StatusResult(results: seq<StatusDoc>, tot: int)

  /** `order` lists every key of `s` exactly once: the order in which the
      engine visits the index. */
  predicate Enumerates(order: seq<string>, s: Store)
  {
    && (forall i | 0 <= i < |order| :: order[i] in s)
    && (forall k | k in s :: k in order)
    && (forall i, j | 0 <= i < j < |order| :: order[i] != order[j])
  }

  /** The stored documents of the keys in `order`, in that order. */
  function DocsOf(s: Store, order: seq<string>): seq<Stored>
  {
    if |order| == 0 then []
    else if order[0] in s then [s[order[0]]] + DocsOf(s, order[1..])
    else DocsOf(s, order[1..])
  }

  predicate SortedByStatus(xs: seq<Stored>)
  {
    forall i, j | 0 <= i < j < |xs| :: xs[i].doc.status <= xs[j].doc.status
  }

  predicate AtLeast(b: int, xs: seq<Stored>)
  {
    forall i | 0 <= i < |xs| :: b <= xs[i].doc.status
  }

  /** `x` placed before the first document whose status is not lower. */
  function Insert(x: Stored, xs: seq<Stored>): seq<Stored>
  {
    if |xs| == 0 || x.doc.status <= xs[0].doc.status then [x] + xs
    else [xs[0]] + Insert(x, xs[1..])
  }

  /** A stable insertion sort on the `status` field: the engine's sort on
      `status`, ties left in enumeration order. */
  function SortByStatus(xs: seq<Stored>): seq<Stored>
  {
    if |xs| == 0 then [] else Insert(xs[0], SortByStatus(xs[1..]))
  }

  lemma {:induction false} InsertCount(x: Stored, xs: seq<Stored>)
    ensures multiset(Insert(x, xs)) == multiset(xs) + multiset{x}
  {
    if |xs| > 0 && x.doc.status > xs[0].doc.status {
      InsertCount(x, xs[1..]);
      assert xs == [xs[0]] + xs[1..];
    }
  }

  lemma {:induction false} InsertAtLeast(b: int, x: Stored, xs: seq<Stored>)
    requires AtLeast(b, xs) && b <= x.doc.status
    ensures AtLeast(b, Insert(x, xs))
  {
    if |xs| > 0 && x.doc.status > xs[0].doc.status {
      InsertAtLeast(b, x, xs[1..]);
    }
  }

  lemma SortedCons(x: Stored, xs: seq<Stored>)
    requires AtLeast(x.doc.status, xs) && SortedByStatus(xs)
    ensures SortedByStatus([x] + xs)
  {
    var ys := [x] + xs;
    forall i, j | 0 <= i < j < |ys| ensures ys[i].doc.status <= ys[j].doc.status {
      assert ys[j] == xs[j - 1];
      if i > 0 {
        assert ys[i] == xs[i - 1];
      }
    }
  }

  lemma {:induction false} InsertSorted(x: Stored, xs: seq<Stored>)
    requires SortedByStatus(xs)
    ensures SortedByStatus(Insert(x, xs))
  {
    if |xs| == 0 || x.doc.status <= xs[0].doc.status {
      assert AtLeast(x.doc.status, xs);
      SortedCons(x, xs);
    } else {
      var rest := xs[1..];
      InsertSorted(x, rest);
      assert AtLeast(xs[0].doc.status, rest);
      InsertAtLeast(xs[0].doc.status, x, rest);
      SortedCons(xs[0], Insert(x, rest));
    }
  }

  /** The sort orders by status and keeps every document exactly once. */
  lemma {:induction false} SortByStatusCorrect(xs: seq<Stored>)
    ensures SortedByStatus(SortByStatus(xs))
    ensures multiset(SortByStatus(xs)) == multiset(xs)
  {
    if |xs| > 0 {
      SortByStatusCorrect(xs[1..]);
      InsertSorted(xs[0], SortByStatus(xs[1..]));
      InsertCount(xs[0], SortByStatus(xs[1..]));
      assert xs == [xs[0]] + xs[1..];
    }
  }

  /** Elements `from .. from + size` of `xs`, cut short at its end. */
  function Window<T>(xs: seq<T>, from: nat, size: nat): (r: seq<T>)
    ensures |r| <= size
    ensures from >= |xs| ==> r == []
    ensures from + size <= |xs| ==> |r| == size
    ensures forall i | 0 <= i < |r| :: from + i < |xs| && r[i] == xs[from + i]
  {
    if from >= |xs| then []
    else if from + size <= |xs| then xs[from..from + size]
    else xs[from..]
  }

  /** Every hit of a page decodes. */
  predicate AllDecode(page: seq<Stored>)
  {
    forall i | 0 <= i < |page| :: page[i].decodes
  }

  /** Decode every hit of a page; one undecodable hit fails the page. */
  function DecodeAll(page: seq<Stored>): (r: Result<seq<StatusDoc>, StoreError>)
    ensures r.Ok? <==> AllDecode(page)
    ensures r.Err? ==> r.error == Undecodable
    ensures r.Ok? ==> |r.value| == |page|
                      && forall i | 0 <= i < |page| :: r.value[i] == page[i].doc
  {
    if |page| == 0 then Ok([])
    else if !page[0].decodes then Err(Undecodable)
    else
      match DecodeAll(page[1..])
      case Err(e) => Err(e)
      case Ok(rest) => Ok([page[0].doc] + rest)
  }

  /** `GetStatus(from, size)`: a match-all search sorted by status, one
      page of at most `size` documents from offset `from`, and the total
      number of documents in the index. */
  function GetStatus(s: Store, order: seq<string>, from: nat, size: nat, ok: bool)
    : (r: Result<StatusResult, StoreError>)
    ensures !ok ==> r == Err(BackendFailed)
    ensures r.Ok? ==> r.value.tot == |s|
    ensures r.Ok? ==> |r.value.results| <= size
    ensures r.Ok? ==> forall i, j | 0 <= i < j < |r.value.results| ::
                        r.value.results[i].status <= r.value.results[j].status
    ensures r.Ok? ==> forall i | 0 <= i < |r.value.results| :: IsStored(s, r.value.results[i])
    ensures var w := Window(SortByStatus(DocsOf(s, order)), from, size);
      && (r.Ok? <==> ok && AllDecode(w))
      && (ok && (exists i | 0 <= i < |w| :: !w[i].decodes) ==> r == Err(Undecodable))
      && (r.Ok? ==> |r.value.results| == |w| && forall i | 0 <= i < |w| :: r.value.results[i] == w[i].doc)
  {
    PageFacts(s, order, from, size);
    if !ok then Err(BackendFailed)
    else PageResult(Window(SortByStatus(DocsOf(s, order)), from, size), |s|)
  }

  /** The answer for one page of hits: their documents, or an error when
      one of them does not decode. */
  function PageResult(page: seq<Stored>, tot: nat): (r: Result<StatusResult, StoreError>)
    ensures r.Ok? <==> AllDecode(page)
    ensures r.Err? ==> r.error == Undecodable
    ensures r.Ok? ==> r.value.tot == tot && |r.value.results| == |page|
                      && forall i | 0 <= i < |page| :: r.value.results[i] == page[i].doc
  {
    match DecodeAll(page)
    case Err(e) => Err(e)
    case Ok(docs) => Ok(StatusResult(docs, tot))
  }

  /** A page of the sorted listing is sorted and holds stored documents only. */
  lemma PageFacts(s: Store, order: seq<string>, from: nat, size: nat)
    ensures SortedByStatus(Window(SortByStatus(DocsOf(s, order)), from, size))
    ensures FromStore(s, Window(SortByStatus(DocsOf(s, order)), from, size))
  {
    var all := DocsOf(s, order);
    var sorted := SortByStatus(all);
    SortByStatusCorrect(all);
    DocsOfStored(s, order);
    var page := Window(sorted, from, size);
    forall i | 0 <= i < |page| ensures IsStored(s, page[i].doc) {
      assert page[i] in multiset(sorted);
      assert page[i] in all;
      var key :| key in s && s[key] == page[i];
      assert s[key].doc == page[i].doc;
    }
    assert FromStore(s, page);
  }

  /** Every document of `xs` is the document of some key of `s`. */
  predicate FromStore(s: Store, xs: seq<Stored>)
  {
    forall i | 0 <= i < |xs| :: IsStored(s, xs[i].doc)
  }

  /** `d` is the document of some key of `s`. */
  predicate IsStored(s: Store, d: StatusDoc)
  {
    exists k | k in s :: s[k].doc == d
  }

  lemma {:induction false} DocsOfStored(s: Store, order: seq<string>)
    ensures forall x | x in DocsOf(s, order) :: exists k | k in s :: s[k] == x
  {
    if |order| > 0 {
      DocsOfStored(s, order[1..]);
    }
  }

  /** Consecutive pages tile the listing: the page `[0, a)` followed by the
      page `[a, a + b)` is the page `[0, a + b)`. */
  lemma PagesTile(s: Store, order: seq<string>, a: nat, b: nat)
    requires GetStatus(s, order, 0, a + b, true).Ok?
    ensures GetStatus(s, order, 0, a, true).Ok?
    ensures GetStatus(s, order, a, b, true).Ok?
    ensures GetStatus(s, order, 0, a, true).value.results
          + GetStatus(s, order, a, b, true).value.results
         == GetStatus(s, order, 0, a + b, true).value.results
  {
    var sorted := SortByStatus(DocsOf(s, order));
    WindowTile(sorted, a, b);
    DecodeAllAppend(Window(sorted, 0, a), Window(sorted, a, b));
  }

  lemma WindowTile<T>(xs: seq<T>, a: nat, b: nat)
    ensures Window(xs, 0, a) + Window(xs, a, b) == Window(xs, 0, a + b)
  {
    if a + b <= |xs| {
      assert Window(xs, 0, a) == xs[..a];
      assert Window(xs, a, b) == xs[a..a + b];
    } else if a <= |xs| {
      assert Window(xs, 0, a) == xs[..a];
      assert Window(xs, a, b) == xs[a..];
    }
  }

  /** A page decodes exactly when both of its parts do, into the two parts'
      documents one after the other. */
  lemma DecodeAllAppend(p: seq<Stored>, q: seq<Stored>)
    ensures DecodeAll(p + q).Ok? <==> DecodeAll(p).Ok? && DecodeAll(q).Ok?
    ensures DecodeAll(p + q).Ok? ==> DecodeAll(p + q).value == DecodeAll(p).value + DecodeAll(q).value
  {
    var pq := p + q;
    assert forall i | 0 <= i < |p| :: pq[i] == p[i];
    assert forall i | 0 <= i < |q| :: pq[|p| + i] == q[i];
    if DecodeAll(pq).Ok? {
      var whole := DecodeAll(pq).value;
      var parts := DecodeAll(p).value + DecodeAll(q).value;
      assert |whole| == |parts|;
      forall i | 0 <= i < |whole| ensures whole[i] == parts[i] {
        if i >= |p| {
          assert pq[i] == q[i - |p|];
        }
      }
    }
  }

  /** A listing from offset 0 that is large enough returns every stored
      document, once per key, when every source decodes. */
  lemma FullListing(s: Store, order: seq<string>, size: nat)
    requires Enumerates(order, s)
    requires forall k | k in s :: s[k].decodes
    requires size >= |s|
    ensures GetStatus(s, order, 0, size, true).Ok?
    ensures |GetStatus(s, order, 0, size, true).value.results| == |s|
    ensures forall k | k in s :: s[k].doc in GetStatus(s, order, 0, size, true).value.results
  {
    EnumeratesCount(order, s);
    var all := DocsOf(s, order);
    DocsOfAll(s, order);
    var sorted := SortByStatus(all);
    SortByStatusCorrect(all);
    assert |sorted| == |all| by {
      assert |multiset(sorted)| == |multiset(all)|;
    }
    var page := Window(sorted, 0, size);
    assert page == sorted;
    forall i | 0 <= i < |page| ensures page[i].decodes {
      assert page[i] in multiset(all);
      var j :| 0 <= j < |all| && all[j] == page[i];
      assert all[j] == s[order[j]];
    }
    var docs := DecodeAll(page).value;
    forall k | k in s ensures s[k].doc in docs {
      var j :| 0 <= j < |order| && order[j] == k;
      assert all[j] == s[k];
      assert s[k] in multiset(sorted);
      var m :| 0 <= m < |sorted| && sorted[m] == s[k];
      assert docs[m] == s[k].doc;
    }
  }

  /** A key enumeration has exactly as many entries as the store has keys. */
  lemma {:induction false} EnumeratesCount(order: seq<string>, s: Store)
    requires Enumerates(order, s)
    ensures |s| == |order|
    decreases |order|
  {
    if |order| == 0 {
      assert s.Keys == {};
    } else {
      var k0 := order[0];
      var rest := s - {k0};
      assert rest.Keys == s.Keys - {k0};
      forall i | 0 <= i < |order| - 1 ensures order[1..][i] in rest {
        assert order[1..][i] == order[i + 1] != order[0];
      }
      forall k | k in rest ensures k in order[1..] {
        var j :| 0 <= j < |order| && order[j] == k;
        assert j != 0;
        assert order[1..][j - 1] == k;
      }
      EnumeratesCount(order[1..], rest);
    }
  }

  /** When every key of `order` is stored, `DocsOf` maps position by position. */
  lemma {:induction false} DocsOfAll(s: Store, order: seq<string>)
    requires forall i | 0 <= i < |order| :: order[i] in s
    ensures |DocsOf(s, order)| == |order|
    ensures forall i | 0 <= i < |order| :: DocsOf(s, order)[i] == s[order[i]]
  {
    if |order| > 0 {
      assert forall i | 0 <= i < |order| - 1 :: order[1..][i] == order[i + 1];
      DocsOfAll(s, order[1..]);
    }
  }
}
