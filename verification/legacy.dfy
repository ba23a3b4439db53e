/** The search-engine helpers of the earlier internal/elastic package
    (esapi.go) that the current package does not share: index creation,
    the entry search and the unsorted status listing. The engine's own
    matching is a parameter; the indices are maps. */
module LegacyApi {
  import opened Wrappers
  import opened StatusStore
  import Parser

  // ---------------------------------------------------------------------
  // CreateIndex

  /** The engine's indices: name to mapping. */
  type Indices = map<string, string>

  /** `CreateIndex(index, mapping)`: ask whether the index exists (refused
      when `!existsOk`) and create it only when it does not (refused when
      `!createOk`). An existing index keeps its mapping. */
  function CreateIndex(ix: Indices, index: string, mapping: string, existsOk: bool, createOk: bool)
    : (r: Result<Indices, StoreError>)
    ensures !existsOk ==> r == Err(BackendFailed)
    ensures existsOk && index in ix ==> r == Ok(ix)
    ensures existsOk && index !in ix ==> (r.Ok? <==> createOk)
    ensures r.Ok? ==> r.value.Keys == ix.Keys + {index}
    ensures r.Ok? ==> forall k | k in ix :: r.value[k] == ix[k]
    ensures r.Ok? && index !in ix ==> r.value[index] == mapping
  {
    if !existsOk then Err(BackendFailed)
    else if index in ix then Ok(ix)
    else if !createOk then Err(BackendFailed)
    else Ok(ix[index := mapping])
  }

  /** Creating an index a second time, with any mapping, changes nothing
      and cannot fail once the existence check answers. */
  lemma CreateIndexIdempotent(ix: Indices, index: string, mapping: string, again: string, createOk: bool)
    ensures CreateIndex(ix, index, mapping, true, true).Ok?
    ensures var once := CreateIndex(ix, index, mapping, true, true).value;
      CreateIndex(once, index, again, true, createOk) == Ok(once)
  {
  }

  // ---------------------------------------------------------------------
  // Decoding a page of hits

  /** The hits decoded in order up to the first one whose source does not
      decode (`None`); that hit and every later one are dropped. */
  function DecodePrefix<T>(hits: seq<Option<T>>): (r: seq<T>)
    ensures |r| <= |hits|
    ensures forall i | 0 <= i < |r| :: hits[i] == Some(r[i])
    ensures |r| < |hits| ==> hits[|r|].None?
  {
    if |hits| == 0 || hits[0].None? then []
    else [hits[0].value] + DecodePrefix(hits[1..])
  }

  /** Every hit is kept exactly when every hit decodes, and then the
      result is the decoded hits; otherwise the result is the decoded hits
      before the first undecodable one. */
  lemma DecodePrefixCases<T>(hits: seq<Option<T>>)
    ensures |DecodePrefix(hits)| == |hits| <==> forall i | 0 <= i < |hits| :: hits[i].Some?
    ensures (forall i | 0 <= i < |hits| :: hits[i].Some?) ==> DecodePrefix(hits) == Somes(hits)
    ensures forall i | 0 <= i < |hits| && hits[i].None? && (forall j | 0 <= j < i :: hits[j].Some?) ::
              DecodePrefix(hits) == Somes(hits[..i])
  {
    var r := DecodePrefix(hits);
    var n := |r|;
    SomesOfDecoded(hits[..n], r);
    assert hits[..n] == hits ==> Somes(hits) == r;
    forall i | 0 <= i < |hits| && hits[i].None? && (forall j | 0 <= j < i :: hits[j].Some?)
      ensures DecodePrefix(hits) == Somes(hits[..i])
    {
      assert i == n;
    }
  }

  /** `Somes` of hits that all decode is the decoded values. */
  lemma {:induction false} SomesOfDecoded<T>(hits: seq<Option<T>>, vs: seq<T>)
    requires |hits| == |vs|
    requires forall i | 0 <= i < |hits| :: hits[i] == Some(vs[i])
    ensures Somes(hits) == vs
  {
    if |hits| > 0 {
      SomesOfDecoded(hits[1..], vs[1..]);
      assert vs == [vs[0]] + vs[1..];
    }
  }

  // ---------------------------------------------------------------------
  // Search

  /** The query `Search` builds: match-all for an empty query or `*`,
      otherwise a phrase match over all fields. */
  datatype Query = MatchAll | MatchPhrase(text: string)

  function SearchQuery(q: string): (r: Query)
    ensures r == MatchAll <==> |q| == 0 || q == "*"
    ensures r.MatchPhrase? ==> r.text == q
  {
    if |q| < 1 || q == "*" then MatchAll else MatchPhrase(q)
  }

  /** The engine's answer to one page of a query: the page's hits (`None`
      for a source that does not decode as an entry) and the total number
      of hits; `None` when the request fails. */
  type Engine = (Query, int, int) -> Option<(seq<Option<Parser.Entry>>, int)>

  datatype SearchResult = SearchResult(results: seq<Parser.Entry>, tot: int)

  /** `Search(q, from, size)`: a failed request is an error; otherwise the
      page's entries up to the first undecodable one, without an error,
      and the engine's total. */
  function Search(q: string, from: int, size: int, engine: Engine): (r: Result<SearchResult, StoreError>)
    ensures r.Ok? <==> engine(SearchQuery(q), from, size).Some?
    ensures r.Err? ==> r.error == BackendFailed
    ensures r.Ok? ==>
      var (hits, total) := engine(SearchQuery(q), from, size).value;
      && r.value.tot == total
      && |r.value.results| <= |hits|
      && (forall i | 0 <= i < |r.value.results| :: hits[i] == Some(r.value.results[i]))
      && (|r.value.results| < |hits| ==> hits[|r.value.results|].None?)
  {
    match engine(SearchQuery(q), from, size)
    case None => Err(BackendFailed)
    case Some((hits, total)) => Ok(SearchResult(DecodePrefix(hits), total))
  }

  /** An empty query and `*` ask the engine the same question. */
  lemma SearchStarIsEmpty(from: int, size: int, engine: Engine)
    ensures Search("*", from, size, engine) == Search("", from, size, engine)
  {
  }

  // ---------------------------------------------------------------------
  // GetStatus

  /** The stored documents as the decoder sees them. */
  function Decoded(page: seq<Stored>): (r: seq<Option<StatusDoc>>)
    ensures |r| == |page|
    ensures forall i | 0 <= i < |r| :: r[i] == if page[i].decodes then Some(page[i].doc) else None
  {
    if |page| == 0 then []
    else [if page[0].decodes then Some(page[0].doc) else None] + Decoded(page[1..])
  }

  /** `GetStatus(from, size)` of the earlier package: a match-all search
      of the uploads index, not sorted (documents in the engine's
      enumeration `order`), keeping the documents up to the first one that
      does not decode; only a failed request is an error. */
  function LegacyGetStatus(s: Store, order: seq<string>, from: nat, size: nat, ok: bool)
    : (r: Result<StatusResult, StoreError>)
    ensures r.Ok? <==> ok
    ensures !ok ==> r == Err(BackendFailed)
    ensures r.Ok? ==> r.value.tot == |s|
    ensures r.Ok? ==>
      var page := Window(DocsOf(s, order), from, size);
      && |r.value.results| <= |page|
      && (forall i | 0 <= i < |r.value.results| :: page[i].decodes && r.value.results[i] == page[i].doc)
      && (|r.value.results| < |page| ==> !page[|r.value.results|].decodes)
  {
    if !ok then Err(BackendFailed)
    else
      var page := Window(DocsOf(s, order), from, size);
      Ok(StatusResult(DecodePrefix(Decoded(page)), |s|))
  }

  /** Against the current `GetStatus` on the same unsorted page: where
      every document decodes both give the page's documents; an
      undecodable document at position `i` fails the current page, while
      the earlier one returns the `i` documents before it. */
  lemma LegacyGetStatusAgainstDecodeAll(s: Store, order: seq<string>, from: nat, size: nat)
    ensures var page := Window(DocsOf(s, order), from, size);
      var r := LegacyGetStatus(s, order, from, size, true).value.results;
      && (DecodeAll(page).Ok? ==> r == DecodeAll(page).value)
      && (DecodeAll(page).Err? ==> |r| < |page| && forall i | 0 <= i < |r| :: r[i] == page[i].doc)
  {
    var page := Window(DocsOf(s, order), from, size);
    var r := LegacyGetStatus(s, order, from, size, true).value.results;
    if DecodeAll(page).Err? {
      var i :| 0 <= i < |page| && !page[i].decodes;
      assert |r| <= i;
    }
  }
}
